/**
 * The main window: the selected file's name, the check boxes of the digests
 * to compute, the case toggle, the comparison boxes a sidecar fills and the
 * result boxes a calculation fills.
 */
module Window {
  import opened Wrappers
  import opened Text
  import opened Paths
  import opened HexFormat
  import opened Sidecar
  import D = Digests
  import C = Compare

  /** What selecting a file leaves in the comparison boxes, and whether
      reading a sidecar raised the not-found error. */
  datatype Loaded = Loaded(expected: map<Kind, string>, outcome: Outcome<NotFound>)

  /** The order in which a selection looks for sidecars. */
  const SidecarOrder: seq<Kind> := [Sfv, Md5, Sha1, Sha256]

  /** The comparison boxes after looking for one kind of sidecar: unchanged
      when there is none, the checksum read from it when it names the file,
      and the not-found error otherwise. */
  function Load(expected: map<Kind, string>, fileExt: string, fs: FileSystem, kind: Kind)
    : Result<map<Kind, string>, NotFound>
  {
    match Discover(fs, fileExt, kind)
    case None => Success(expected)
    case Some(path) =>
      match Resolve(LayoutOf(kind), path, fs.files[path])
      case Success(checksum) => Success(expected[kind := checksum])
      case Failure(e) => Failure(e)
  }

  /** Once the sidecar of a kind is found and read, the boxes take the
      checksum read or the selection takes the error raised. */
  lemma LoadFrom(expected: map<Kind, string>, fileExt: string, fs: FileSystem, kind: Kind,
                 path: string, r: Result<string, NotFound>)
    requires Discover(fs, fileExt, kind) == Some(path)
    requires r == Resolve(LayoutOf(kind), path, fs.files[path])
    ensures r.Success? ==> Load(expected, fileExt, fs, kind) == Success(expected[kind := r.value])
    ensures r.Failure? ==> Load(expected, fileExt, fs, kind) == Failure(r.error)
  {
  }

  /** The boxes and the outcome once the result of one block is known: a
      success replaces the boxes, an error keeps them and is raised. */
  function Apply(expected: map<Kind, string>, r: Result<map<Kind, string>, NotFound>): (l: Loaded)
    ensures r.Success? ==> l == Loaded(r.value, Pass)
    ensures r.Failure? ==> l == Loaded(expected, Fail(r.error))
  {
    match r
    case Success(next) => Loaded(next, Pass)
    case Failure(e) => Loaded(expected, Fail(e))
  }

  /** Looking for each kind of sidecar in turn; the first error ends the
      selection and the boxes filled before it keep their new text. */
  function LoadAll(expected: map<Kind, string>, fileExt: string, fs: FileSystem, kinds: seq<Kind>): Loaded
    decreases |kinds|
  {
    if kinds == [] then Loaded(expected, Pass)
    else match Load(expected, fileExt, fs, kinds[0])
      case Failure(e) => Loaded(expected, Fail(e))
      case Success(next) => LoadAll(next, fileExt, fs, kinds[1..])
  }

  /** One step of a selection: the first kind's result is applied, and the
      rest follow only when it passed. */
  lemma LoadAllStep(expected: map<Kind, string>, fileExt: string, fs: FileSystem, kinds: seq<Kind>)
    requires kinds != []
    ensures var l := Apply(expected, Load(expected, fileExt, fs, kinds[0]));
            LoadAll(expected, fileExt, fs, kinds) ==
              if l.outcome.Fail? then l
              else if kinds[1..] == [] then l
              else LoadAll(l.expected, fileExt, fs, kinds[1..])
  {
  }

  /** The sidecar of a kind, if there is one, names the file. */
  predicate Readable(fs: FileSystem, fileExt: string, kind: Kind) {
    match Discover(fs, fileExt, kind)
    case None => true
    case Some(path) => Resolve(LayoutOf(kind), path, fs.files[path]).Success?
  }

  /** Without a sidecar of the kind the boxes keep their text. */
  lemma LoadNothing(expected: map<Kind, string>, fileExt: string, fs: FileSystem, kind: Kind)
    requires Discover(fs, fileExt, kind) == None
    ensures Load(expected, fileExt, fs, kind) == Success(expected)
  {
  }

  /** Looking for one kind of sidecar succeeds exactly when it is readable. */
  lemma LoadSucceeds(expected: map<Kind, string>, fileExt: string, fs: FileSystem, kind: Kind)
    ensures Load(expected, fileExt, fs, kind).Success? <==> Readable(fs, fileExt, kind)
  {
  }

  /** The box of a kind that has no sidecar, or is not looked for, keeps its text. */
  lemma {:induction false} LoadUntouched(expected: map<Kind, string>, fileExt: string, fs: FileSystem,
                                         kinds: seq<Kind>, k: Kind)
    requires k !in kinds || Discover(fs, fileExt, k).None?
    ensures k in LoadAll(expected, fileExt, fs, kinds).expected <==> k in expected
    ensures k in expected ==> LoadAll(expected, fileExt, fs, kinds).expected[k] == expected[k]
    decreases |kinds|
  {
    if kinds != [] {
      match Load(expected, fileExt, fs, kinds[0])
      case Failure(_) =>
      case Success(next) =>
        assert k !in kinds[1..] || Discover(fs, fileExt, k).None? by {
          if k in kinds[1..] {
            var j :| 0 <= j < |kinds[1..]| && kinds[1..][j] == k;
            assert kinds[j + 1] == k;
          }
        }
        LoadUntouched(next, fileExt, fs, kinds[1..], k);
    }
  }

  /** A selection completes without error exactly when every sidecar it
      finds names the file. */
  lemma LoadPass(expected: map<Kind, string>, fileExt: string, fs: FileSystem, kinds: seq<Kind>)
    ensures LoadAll(expected, fileExt, fs, kinds).outcome == Pass
            <==> forall i :: 0 <= i < |kinds| ==> Readable(fs, fileExt, kinds[i])
  {
    if LoadAll(expected, fileExt, fs, kinds).outcome == Pass {
      PassReadable(expected, fileExt, fs, kinds);
    } else {
      FailUnreadable(expected, fileExt, fs, kinds);
    }
  }

  /** A selection that completes found only sidecars that name the file. */
  lemma {:induction false} PassReadable(expected: map<Kind, string>, fileExt: string, fs: FileSystem, kinds: seq<Kind>)
    requires LoadAll(expected, fileExt, fs, kinds).outcome == Pass
    ensures forall i :: 0 <= i < |kinds| ==> Readable(fs, fileExt, kinds[i])
    decreases |kinds|
  {
    if kinds != [] {
      var step := Load(expected, fileExt, fs, kinds[0]);
      assert step.Success?;
      LoadSucceeds(expected, fileExt, fs, kinds[0]);
      PassReadable(step.value, fileExt, fs, kinds[1..]);
      forall i | 0 <= i < |kinds|
        ensures Readable(fs, fileExt, kinds[i])
      {
        if i > 0 {
          assert kinds[i] == kinds[1..][i - 1];
        }
      }
    }
  }

  /** A selection that raises the error found a sidecar that does not name the file. */
  lemma {:induction false} FailUnreadable(expected: map<Kind, string>, fileExt: string, fs: FileSystem, kinds: seq<Kind>)
    requires LoadAll(expected, fileExt, fs, kinds).outcome != Pass
    ensures exists i :: 0 <= i < |kinds| && !Readable(fs, fileExt, kinds[i])
    decreases |kinds|
  {
    LoadSucceeds(expected, fileExt, fs, kinds[0]);
    match Load(expected, fileExt, fs, kinds[0])
    case Failure(_) =>
      assert !Readable(fs, fileExt, kinds[0]);
    case Success(next) =>
      FailUnreadable(next, fileExt, fs, kinds[1..]);
      var i :| 0 <= i < |kinds[1..]| && !Readable(fs, fileExt, kinds[1..][i]);
      assert kinds[1..][i] == kinds[i + 1];
  }

  /** When a selection completes, the box of every kind with a sidecar holds
      the checksum read from that sidecar. */
  lemma {:induction false} LoadResolved(expected: map<Kind, string>, fileExt: string, fs: FileSystem,
                                        kinds: seq<Kind>, k: Kind)
    requires LoadAll(expected, fileExt, fs, kinds).outcome == Pass
    requires k in kinds && Discover(fs, fileExt, k).Some?
    ensures Resolve(LayoutOf(k), Discover(fs, fileExt, k).value, fs.files[Discover(fs, fileExt, k).value]).Success?
    ensures k in LoadAll(expected, fileExt, fs, kinds).expected
    ensures LoadAll(expected, fileExt, fs, kinds).expected[k]
            == Resolve(LayoutOf(k), Discover(fs, fileExt, k).value, fs.files[Discover(fs, fileExt, k).value]).value
    decreases |kinds|
  {
    match Load(expected, fileExt, fs, kinds[0])
    case Success(next) =>
      if k in kinds[1..] {
        LoadResolved(next, fileExt, fs, kinds[1..], k);
      } else {
        assert kinds[0] == k;
        LoadUntouched(next, fileExt, fs, kinds[1..], k);
      }
  }

  /** Kind i of kinds is the first whose sidecar does not name the file. */
  predicate FailsAt(fs: FileSystem, fileExt: string, kinds: seq<Kind>, i: int) {
    && 0 <= i < |kinds|
    && (forall j :: 0 <= j < i ==> Readable(fs, fileExt, kinds[j]))
    && !Readable(fs, fileExt, kinds[i])
  }

  /** The error reading the sidecar of a kind raises when it does not name the file. */
  function NotFoundFor(fs: FileSystem, fileExt: string, kind: Kind): NotFound
    requires Discover(fs, fileExt, kind).Some?
  {
    var path := Discover(fs, fileExt, kind).value;
    NotFound(SearchString(path), path)
  }

  /** A selection that fails reports the first sidecar that does not name the
      file: its search string and its path. */
  lemma {:induction false} LoadFail(expected: map<Kind, string>, fileExt: string, fs: FileSystem, kinds: seq<Kind>)
    requires LoadAll(expected, fileExt, fs, kinds).outcome.Fail?
    ensures exists i :: && FailsAt(fs, fileExt, kinds, i)
                        && Discover(fs, fileExt, kinds[i]).Some?
                        && LoadAll(expected, fileExt, fs, kinds).outcome.error == NotFoundFor(fs, fileExt, kinds[i])
    decreases |kinds|
  {
    match Load(expected, fileExt, fs, kinds[0])
    case Failure(e) =>
      var path := Discover(fs, fileExt, kinds[0]).value;
      ResolveSpec(LayoutOf(kinds[0]), path, fs.files[path]);
      assert FailsAt(fs, fileExt, kinds, 0);
    case Success(next) =>
      LoadFail(next, fileExt, fs, kinds[1..]);
      var i :| && FailsAt(fs, fileExt, kinds[1..], i)
               && Discover(fs, fileExt, kinds[1..][i]).Some?
               && LoadAll(next, fileExt, fs, kinds[1..]).outcome.error == NotFoundFor(fs, fileExt, kinds[1..][i]);
      FailsAtNext(fs, fileExt, kinds, i);
  }

  lemma FailsAtNext(fs: FileSystem, fileExt: string, kinds: seq<Kind>, i: int)
    requires kinds != [] && Readable(fs, fileExt, kinds[0])
    requires FailsAt(fs, fileExt, kinds[1..], i)
    ensures FailsAt(fs, fileExt, kinds, i + 1) && kinds[i + 1] == kinds[1..][i]
  {
    forall j | 0 <= j < i + 1 ensures Readable(fs, fileExt, kinds[j]) {
      if j > 0 {
        assert kinds[j] == kinds[1..][j - 1];
      }
    }
    assert kinds[i + 1] == kinds[1..][i];
  }

  /** A sidecar named after the whole file name whose first record for the
      file is a line a checksum tool wrote for it fills the box with the
      checksum written there. */
  lemma SidecarRecordLoaded(expected: map<Kind, string>, fileExt: string, fs: FileSystem, kind: Kind,
                            before: seq<string>, checksum: string, after: seq<string>, sp: Spacing)
    requires Blank(sp)
    requires Exists(fs, SidecarPath(fileExt, kind))
    requires FileName(fileExt) != [] && NoWhiteSpace(FileName(fileExt))
    requires checksum != [] && NoWhiteSpace(checksum)
    requires forall j :: 0 <= j < |before| ==> !Qualifies(before[j], FileName(fileExt), LayoutOf(kind))
    requires fs.files[SidecarPath(fileExt, kind)]
             == before + [FormatRecord(LayoutOf(kind), FileName(fileExt), checksum, sp)] + after
    ensures Load(expected, fileExt, fs, kind) == Success(expected[kind := checksum])
  {
    var path := SidecarPath(fileExt, kind);
    DiscoveredSearchString(fs, fileExt, kind);
    assert Contains(FileName(fileExt), FileName(fileExt));
    ResolveRecord(LayoutOf(kind), path, before, FileName(fileExt), checksum, after, sp);
  }

  /** The calculated digest a comparison box is checked against: the box
      `cmp<X>` is compared with the result box `tb<X>`. The SFV box holds a
      CRC-32, which no calculation produces. */
  function ResultOf(kind: Kind): (r: Option<D.Algorithm>)
    ensures r.None? <==> kind == Sfv
    ensures r.Some? ==> r.value in D.Table
  {
    match kind
    case Sfv => None
    case Md5 => Some(D.Md5)
    case Sha1 => Some(D.Sha1)
    case Sha256 => Some(D.Sha256)
  }

  /** The digest a sidecar records for the file, in either case, is loaded
      into the comparison box of its kind, and that text and the calculated
      digest in the result box of the same name classify as green: the colour
      the label takes the next time the comparison box changes. */
  lemma SidecarDigestMatches(expected: map<Kind, string>, fileExt: string, fs: FileSystem, kind: Kind,
                             alg: D.Algorithm, data: seq<byte>, digest: (D.Algorithm, seq<byte>) -> seq<byte>,
                             typedUpper: bool, upper: bool, before: seq<string>, after: seq<string>, sp: Spacing)
    requires Blank(sp)
    requires ResultOf(kind) == Some(alg)
    requires digest(alg, data) != []
    requires Exists(fs, SidecarPath(fileExt, kind))
    requires FileName(fileExt) != [] && NoWhiteSpace(FileName(fileExt))
    requires forall j :: 0 <= j < |before| ==> !Qualifies(before[j], FileName(fileExt), LayoutOf(kind))
    requires fs.files[SidecarPath(fileExt, kind)]
             == before + [FormatRecord(LayoutOf(kind), FileName(fileExt), Hex(digest(alg, data), typedUpper), sp)] + after
    ensures Load(expected, fileExt, fs, kind).Success?
    ensures Load(expected, fileExt, fs, kind).value[kind] == Hex(digest(alg, data), typedUpper)
    ensures C.Classify(Hex(digest(alg, data), typedUpper), D.Results({alg}, data, digest, upper)[alg], upper) == C.Green
  {
    var checksum := Hex(digest(alg, data), typedUpper);
    HexIsTrimmed(digest(alg, data), typedUpper);
    SidecarRecordLoaded(expected, fileExt, fs, kind, before, checksum, after, sp);
    C.DigestMatchesUnpadded(digest(alg, data), upper, typedUpper, upper);
  }

  /** Loading what the existence checks of a block found: without a sidecar
      the boxes stay as they are; otherwise the boxes with the checksum the
      sidecar records for the file, or the not-found error. */
  method LoadFound(expected: map<Kind, string>, fileExt: string, fs: FileSystem, kind: Kind, found: Option<string>)
    returns (r: Result<map<Kind, string>, NotFound>)
    requires found == Discover(fs, fileExt, kind)
    ensures r == Load(expected, fileExt, fs, kind)
  {
    if found.None? {
      LoadNothing(expected, fileExt, fs, kind);
      return Success(expected);
    }
    var path := found.value;
    var checksum := ProcessChecksumFile(LayoutOf(kind), path, fs.files[path]);
    LoadFrom(expected, fileExt, fs, kind, path, checksum);
    match checksum
    case Success(c) =>
      r := Success(expected[kind := c]);
    case Failure(e) =>
      r := Failure(e);
  }

  /** A file whose name has white space in it, such as `My Photo.jpg`, with a
      sidecar holding the record a checksum tool writes for it: the record
      splits into more than two tokens, so loading that sidecar raises the
      not-found error and the selection does not complete. */
  lemma SpacedFileNameFails(expected: map<Kind, string>, fileExt: string, fs: FileSystem, kind: Kind,
                            words: seq<string>, checksum: string, sp: Spacing)
    requires Blank(sp)
    requires |words| >= 2 && forall k :: 0 <= k < |words| ==> IsToken(words[k])
    requires IsToken(checksum)
    requires FileName(fileExt) == JoinSpaced(words)
    requires Exists(fs, SidecarPath(fileExt, kind))
    requires fs.files[SidecarPath(fileExt, kind)] == [FormatRecord(LayoutOf(kind), JoinSpaced(words), checksum, sp)]
    ensures Load(expected, fileExt, fs, kind) == Failure(NotFound(FileName(fileExt), SidecarPath(fileExt, kind)))
    ensures !Readable(fs, fileExt, kind)
  {
    var path := SidecarPath(fileExt, kind);
    DiscoveredSearchString(fs, fileExt, kind);
    SpacedNameNotFound(LayoutOf(kind), path, words, checksum, sp);
    LoadFrom(expected, fileExt, fs, kind, path, Resolve(LayoutOf(kind), path, fs.files[path]));
    LoadSucceeds(expected, fileExt, fs, kind);
  }

  /** Such a sidecar of any kind makes the whole selection raise the error. */
  lemma SpacedFileNameSelectionFails(expected: map<Kind, string>, fileExt: string, fs: FileSystem, kind: Kind,
                                     words: seq<string>, checksum: string, sp: Spacing)
    requires Blank(sp)
    requires |words| >= 2 && forall k :: 0 <= k < |words| ==> IsToken(words[k])
    requires IsToken(checksum)
    requires FileName(fileExt) == JoinSpaced(words)
    requires Exists(fs, SidecarPath(fileExt, kind))
    requires fs.files[SidecarPath(fileExt, kind)] == [FormatRecord(LayoutOf(kind), JoinSpaced(words), checksum, sp)]
    ensures LoadAll(expected, fileExt, fs, SidecarOrder).outcome.Fail?
  {
    SpacedFileNameFails(expected, fileExt, fs, kind, words, checksum, sp);
    UnreadableFails(expected, fileExt, fs, kind);
  }

  /** A discovered sidecar whose search string has white space in it names
      no file, whatever its lines: loading it raises the not-found error and
      the selection does not complete. */
  lemma SpacedSearchFails(expected: map<Kind, string>, fileExt: string, fs: FileSystem, kind: Kind)
    requires Discover(fs, fileExt, kind).Some?
    requires !NoWhiteSpace(SearchString(Discover(fs, fileExt, kind).value))
    ensures Load(expected, fileExt, fs, kind) == Failure(NotFoundFor(fs, fileExt, kind))
    ensures LoadAll(expected, fileExt, fs, SidecarOrder).outcome.Fail?
  {
    var path := Discover(fs, fileExt, kind).value;
    SpacedSearchNotFound(LayoutOf(kind), path, fs.files[path]);
    LoadSucceeds(expected, fileExt, fs, kind);
    UnreadableFails(expected, fileExt, fs, kind);
  }

  lemma StemSpaceInName(fileExt: string)
    requires !NoWhiteSpace(FileNameWithoutExtension(fileExt))
    ensures !NoWhiteSpace(FileName(fileExt))
  {
    var stem, name := FileNameWithoutExtension(fileExt), FileName(fileExt);
    assert IsStemOf(stem, name);
    PrefixWhiteSpace(stem, name);
  }

  /** A file whose name without its extension has white space in it, such as
      `My Photo.jpg`, is named by no sidecar: a sidecar of any kind, with any
      lines, makes the selection raise the not-found error. */
  lemma SpacedStemSelectionFails(expected: map<Kind, string>, fileExt: string, fs: FileSystem, kind: Kind)
    requires !NoWhiteSpace(FileNameWithoutExtension(fileExt))
    requires Discover(fs, fileExt, kind).Some?
    ensures Load(expected, fileExt, fs, kind).Failure?
    ensures LoadAll(expected, fileExt, fs, SidecarOrder).outcome.Fail?
  {
    DiscoveredSearchString(fs, fileExt, kind);
    if Exists(fs, SidecarPath(fileExt, kind)) {
      StemSpaceInName(fileExt);
    }
    SpacedSearchFails(expected, fileExt, fs, kind);
  }

  /** A sidecar of any kind that does not name the file makes the selection
      raise the error. */
  lemma UnreadableFails(expected: map<Kind, string>, fileExt: string, fs: FileSystem, kind: Kind)
    requires !Readable(fs, fileExt, kind)
    ensures LoadAll(expected, fileExt, fs, SidecarOrder).outcome.Fail?
  {
    LoadPass(expected, fileExt, fs, SidecarOrder);
    var i := match kind case Sfv => 0 case Md5 => 1 case Sha1 => 2 case Sha256 => 3;
    assert SidecarOrder[i] == kind;
  }

  class MainWindow {
    /** The text of the file-name box. */
    var fileName: string
    /** The algorithms whose check boxes are checked. */
    var checkedBoxes: set<D.Algorithm>
    /** The upper-case radio button is checked. */
    var upper: bool
    /** The comparison boxes a sidecar can fill. */
    var expected: map<Kind, string>
    /** The result boxes, by algorithm. */
    var results: map<D.Algorithm, string>

    /** A window with empty text boxes and the given check states. */
    constructor (checkedBoxes: set<D.Algorithm>, upper: bool)
      ensures this.checkedBoxes == checkedBoxes && this.upper == upper
      ensures fileName == "" && expected == map[] && results == map[]
    {
      this.checkedBoxes := checkedBoxes;
      this.upper := upper;
      fileName := "";
      expected := map[];
      results := map[];
    }

    /** The existence checks of one sidecar block: the sidecar named after
        the whole file name, else the one named after the name without
        extension, else none. */
    method FindSidecar(fs: FileSystem, fileExt: string, filename: string, kind: Kind)
      returns (found: Option<string>)
      requires filename == StripExtension(fileExt)
      ensures found == Discover(fs, fileExt, kind)
    {
      if Exists(fs, fileExt + "." + Extension(kind)) {
        found := Some(fileExt + "." + Extension(kind));
      } else if Exists(fs, filename + "." + Extension(kind)) {
        found := Some(filename + "." + Extension(kind));
      } else {
        found := None;
      }
    }

    /** One sidecar block of the selection: the sidecar named after the whole
        file name first, then the one named after the name without extension. */
    method LoadSidecar(fs: FileSystem, fileExt: string, filename: string, kind: Kind)
      returns (outcome: Outcome<NotFound>)
      requires filename == StripExtension(fileExt)
      modifies this
      ensures Loaded(expected, outcome) == Apply(old(expected), Load(old(expected), fileExt, fs, kind))
      ensures fileName == old(fileName) && checkedBoxes == old(checkedBoxes)
      ensures upper == old(upper) && results == old(results)
    {
      var found := FindSidecar(fs, fileExt, filename, kind);
      var r := LoadFound(expected, fileExt, fs, kind, found);
      var next := Apply(expected, r);
      expected, outcome := next.expected, next.outcome;
    }

    /** The Select button: a cancelled dialog changes nothing; a chosen file
        is shown and each kind of sidecar is looked for in turn, and a sidecar
        that does not name the file raises the not-found error. */
    method SelectFile(chosen: Option<string>, fs: FileSystem) returns (outcome: Outcome<NotFound>)
      modifies this
      ensures chosen.None? ==> fileName == old(fileName) && expected == old(expected) && outcome == Pass
      ensures chosen.Some? ==>
                && fileName == chosen.value
                && expected == LoadAll(old(expected), chosen.value, fs, SidecarOrder).expected
                && outcome == LoadAll(old(expected), chosen.value, fs, SidecarOrder).outcome
      ensures checkedBoxes == old(checkedBoxes) && upper == old(upper) && results == old(results)
    {
      if chosen.None? {
        return Pass;
      }
      var fileExt := chosen.value;
      var filename := StripExtension(fileExt);
      fileName := fileExt;
      LoadAllStep(expected, fileExt, fs, SidecarOrder);
      outcome := LoadSidecar(fs, fileExt, filename, Sfv);
      if outcome.Fail? {
        return;
      }
      LoadAllStep(expected, fileExt, fs, [Md5, Sha1, Sha256]);
      outcome := LoadSidecar(fs, fileExt, filename, Md5);
      if outcome.Fail? {
        return;
      }
      LoadAllStep(expected, fileExt, fs, [Sha1, Sha256]);
      outcome := LoadSidecar(fs, fileExt, filename, Sha1);
      if outcome.Fail? {
        return;
      }
      LoadAllStep(expected, fileExt, fs, [Sha256]);
      outcome := LoadSidecar(fs, fileExt, filename, Sha256);
    }

    /** The Calculate button: nothing without a file name; otherwise the
        checked digests of the file's bytes, each shown in hex in the toggle's
        case in its result box, and every other result box left as it was. */
    method Calculate(bytesOf: string -> seq<byte>, digest: (D.Algorithm, seq<byte>) -> seq<byte>)
      modifies this
      ensures old(fileName) == "" ==> results == old(results)
      ensures old(fileName) != "" ==>
                results == old(results) + D.Results(checkedBoxes, bytesOf(fileName), digest, upper)
      ensures fileName == old(fileName) && checkedBoxes == old(checkedBoxes)
      ensures upper == old(upper) && expected == old(expected)
    {
      if fileName == "" {
        return;
      }
      var digestList := CheckedDigests();
      var data := bytesOf(fileName);
      for i := 0 to |digestList|
        invariant fileName == old(fileName) && checkedBoxes == old(checkedBoxes)
        invariant upper == old(upper) && expected == old(expected)
        invariant results == D.Display(old(results), digestList[..i], data, digest, upper)
      {
        ShowDigest(digestList[i], data, digest);
        assert digestList[..i + 1][..i] == digestList[..i];
      }
      assert digestList[..|digestList|] == digestList;
      D.DisplayBatch(old(results), checkedBoxes, data, digest, upper);
    }

    /** The list of digests to compute: one check box after another, each
        checked algorithm once. */
    method CheckedDigests() returns (digestList: seq<D.Algorithm>)
      ensures digestList == D.Selected(checkedBoxes)
    {
      digestList := [];
      for k := 0 to |D.Table|
        invariant digestList == D.Keep(D.Table[..k], checkedBoxes)
      {
        assert D.Table[..k + 1] == D.Table[..k] + [D.Table[k]];
        D.KeepSnoc(D.Table[..k], D.Table[k], checkedBoxes);
        if D.Table[k] in checkedBoxes {
          digestList := digestList + [D.Table[k]];
        }
      }
      assert D.Table[..|D.Table|] == D.Table;
    }

    /** One digest of the batch: DoFinal writes the digest into a buffer of
        its size, and the buffer's hex text goes into the algorithm's box. */
    method ShowDigest(alg: D.Algorithm, data: seq<byte>, digest: (D.Algorithm, seq<byte>) -> seq<byte>)
      modifies this
      ensures results == old(results)[alg := Hex(digest(alg, data), upper)]
      ensures fileName == old(fileName) && checkedBoxes == old(checkedBoxes)
      ensures upper == old(upper) && expected == old(expected)
    {
      var d := digest(alg, data);
      var result := new byte[|d|](j requires 0 <= j < |d| => d[j]);
      assert result[..] == d;
      var text := FormatHex(result, upper);
      results := results[alg := text];
    }
  }
}
