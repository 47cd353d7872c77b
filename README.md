# BouncyCastleHashTool, modelled in Dafny

BouncyCastleHashTool is a desktop utility. It computes up to 24 digests of one
selected file and shows each digest in hexadecimal. It also reads the expected
checksum out of sidecar files (`.sfv`, `.md5`, `.sha1`, `.sha256`) that sit
next to the file, and colours a label beside each digest: green when the
expected and the computed text agree, red when they do not, transparent when
either is empty.

This project models the logic of `src/MainWindow.xaml.cs` and proves what it
promises:

- `text.dfy` (`Text`): the string primitives the window relies on. These are
  `String.Split(null, RemoveEmptyEntries)` as `Tokens`, `String.Trim`, ordinal
  `Contains`, and ASCII upper/lower case mapping.
- `paths.dfy` (`Paths`): `Path.GetFileName`, `Path.GetFileNameWithoutExtension`
  and `Path.GetDirectoryName` on Windows paths. It also holds the
  extension-stripped path built in `btnSelect_Click`.
- `sidecar.dfy` (`Sidecar`): the checksum-file reader `ProcessSfvFile` /
  `ProcessHashFile` as one loop over the file's lines. A `Layout` parameter
  says which token names the file. The module also holds its specification
  `Resolve` and the discovery of which sidecar to read.
- `hex.dfy` (`HexFormat`): the loop that formats a digest as two hex digits per
  byte, its specification `Hex`, decoding, and Base 16 of section 8 of RFC 4648.
- `compare.dfy` (`Compare`): the three-way match indicator of `cmp_TextChanged`
  and the two value converters.
- `digests.dfy` (`Digests`): the table of check boxes, the list of digests a
  calculation builds, and the text it shows in each result box.
- `window.dfy` (`Window`): the window as a class whose fields are its text
  boxes, check boxes and case toggle. It has the Select and Calculate
  handlers, and the sidecar-loading sequence with its error behaviour.
- `scenarios.dfy` (`Scenarios`): concrete sidecars and comparisons worked
  through the general lemmas.
- `wrappers.dfy` (`Wrappers`): `Option`, `Result` and `Outcome`. They stand in
  for `null` and for the thrown exception.

The file system is a map from path to lines. A path exists when it is a key.
The file's bytes and the digest algorithms are function parameters.

Two behaviours of the code follow from the model:

- A search string with white space in it is contained in no token, so a
  sidecar searched for it raises the not-found error whatever its lines
  (`Sidecar.SpacedSearchNotFound`, `Window.SpacedSearchFails`). A file whose
  name without its extension has white space in it, such as `My Photo.jpg`,
  is therefore named by no sidecar: any sidecar of any kind makes the selection
  fail (`Window.SpacedStemSelectionFails`). When the white space is only in
  the extension (`photo.my ext`), a sidecar `photo.md5` is searched for `photo`
  and can name the file. The record a checksum tool writes for a spaced name,
  such as `<hash> My Photo.jpg`, splits into more than two tokens
  (`Sidecar.SpacedNameRecordSkipped`).
- The SFV sidecar fills the CRC-32 comparison box, but the calculation never
  computes a CRC-32. An SFV checksum is therefore never checked against a
  calculated digest (`Window.ResultOf`).

## Model

| member | source | states |
|---|---|---|
| Text.Tokens | src/MainWindow.xaml.cs:130 | every token of a split line is non-empty and holds no white space |
| Text.TokensKeepEveryOtherCharacter | src/MainWindow.xaml.cs:151 | splitting drops only white space: the tokens concatenated are the line's non-white-space characters in order |
| Text.TokensOfBlanksThen | src/MainWindow.xaml.cs:130 | white space of any kind and length in front of a line does not change its tokens |
| Text.TokensOfJoinedThen | src/MainWindow.xaml.cs:130 | single-space-joined well-formed fields followed by white space or nothing split into those fields, then the tokens of what follows |
| Text.TokensOfLine | src/MainWindow.xaml.cs:130-132 | two groups of fields with any white space before, between (at least one character) and after them split into exactly the fields of both groups |
| Text.TokensOfJoinSpaced | src/MainWindow.xaml.cs:130-132 | a line written as space-separated well-formed fields splits back into exactly those fields |
| Text.Trim | src/MainWindow.xaml.cs:390 | the trimmed text neither starts nor ends with white space |
| Text.TrimKeepsText | src/MainWindow.xaml.cs:394 | trimming removes only white space |
| Text.TrimEmptyIffBlank | src/MainWindow.xaml.cs:409 | a trimmed text is empty exactly when the original is all white space |
| Text.ContainsIffOccurs | src/MainWindow.xaml.cs:134 | the name test holds exactly when the search string occurs at some index of the token |
| Text.CaseInsensitiveEquality | src/MainWindow.xaml.cs:388-406 | comparing after upper-casing both and after lower-casing both each decide equality up to ASCII case |
| Text.CaseMappingAbsorbs | src/MainWindow.xaml.cs:40-45 | mapping to one case forgets the earlier case; each mapping is idempotent |
| Paths.FileName | src/MainWindow.xaml.cs:82 | the file name is the suffix of the path after its last separator and holds no separator |
| Paths.DirectoryName | src/MainWindow.xaml.cs:82 | the directory is the prefix before the last separator, or empty when the path has none |
| Paths.FileNameWithoutExtension | src/MainWindow.xaml.cs:126 | the result is the file name less its last dot and what follows, or the whole name when it has no dot |
| Paths.StemOfAddedExtension | src/MainWindow.xaml.cs:147 | the sidecar `photo.jpg.md5` is searched for `photo.jpg`: only the last extension goes |
| Paths.StemOfReplacedExtension | src/MainWindow.xaml.cs:82-89 | the sidecar named after the extension-stripped path is searched for the file name without extension |
| Sidecar.Extension | src/MainWindow.xaml.cs:85-119 | each sidecar kind has a non-empty extension with no dot or separator |
| Sidecar.ProcessChecksumFile | src/MainWindow.xaml.cs:123-163 | the reading loop returns exactly what `Resolve` specifies: the first qualifying record's checksum token, or NotFound with the search string and path |
| Sidecar.ScanLines | src/MainWindow.xaml.cs:128-139 | the `foreach` over the lines stops at the first two-token line whose name token contains the search string and returns its checksum token, and finds nothing when no line qualifies |
| Sidecar.FirstMatchFinds | src/MainWindow.xaml.cs:128-139 | when line i is the first two-token line whose name token contains the search string, its checksum token is the result |
| Sidecar.FirstMatchSound | src/MainWindow.xaml.cs:149-160 | any result comes from the first qualifying line, and no earlier line qualifies |
| Sidecar.FirstMatchNone | src/MainWindow.xaml.cs:141 | nothing is found exactly when no line qualifies |
| Sidecar.MalformedLineSkipped | src/MainWindow.xaml.cs:130-133 | a line whose token count is not 2 never qualifies and the search continues past it |
| Sidecar.ResolveSkipsMalformed | src/MainWindow.xaml.cs:151-154 | reading a sidecar whose first line is malformed gives what reading the remaining lines gives |
| Sidecar.FirstMatchAppend | src/MainWindow.xaml.cs:128-139 | lines appended after a match never change the result; after no match, the appended lines are searched alone |
| Sidecar.ResolveSpec | src/MainWindow.xaml.cs:141-163 | failure happens exactly when no line qualifies; it carries the search string and sidecar path, and the text the exception is built from begins with the search string and ends with the path; success returns the checksum of the first qualifying line |
| Sidecar.Message | src/MainWindow.xaml.cs:141 | the text the exception is built from is the search string, then ` was not found within `, then the sidecar's path; `Sidecar.ResolveSpec` uses it to state that every not-found error identifies its search string and sidecar |
| Sidecar.ResolveAllMalformed | src/MainWindow.xaml.cs:149-162 | a sidecar none of whose lines splits into two tokens raises NotFound with its search string and path |
| Sidecar.SpacedNameRecordSkipped | src/MainWindow.xaml.cs:130-133 | the record for a name of several words splits into the words and the checksum, more than two tokens, and never qualifies, whatever white space surrounds the fields |
| Sidecar.SpacedSearchNotFound | src/MainWindow.xaml.cs:128-162 | a search string with white space in it is contained in no token: reading any sidecar for it raises NotFound with the search string and path |
| Sidecar.SpacedNameNotFound | src/MainWindow.xaml.cs:149-162 | a sidecar holding only the record for a name with white space in it raises NotFound instead of yielding the checksum |
| Sidecar.RecordTokens | src/MainWindow.xaml.cs:130-132 | a record with any white-space spacing (one space, md5sum's two, tabs, padding) splits into the name's words and the checksum, in the layout's order |
| Sidecar.RecordQualifies | src/MainWindow.xaml.cs:134-136 | a record for the file with any white-space spacing (SFV name first, MD5/SHA checksum first) qualifies and yields its checksum |
| Sidecar.ResolveRecord | src/MainWindow.xaml.cs:155-157 | a sidecar whose first record for the file is a record with any white-space spacing returns that record's checksum |
| Sidecar.Discover | src/MainWindow.xaml.cs:85-119 | the extension-preserving sidecar is chosen whenever it exists; the extension-stripped one only when the first is absent; none when neither exists |
| Sidecar.DiscoveredSearchString | src/MainWindow.xaml.cs:82-126 | the chosen sidecar is searched for the whole file name, or for the name without extension |
| HexFormat.FormatHex | src/MainWindow.xaml.cs:328-345 | the byte-by-byte loop over the digest buffer builds exactly `Hex` of the buffer's bytes |
| HexFormat.Hex | src/MainWindow.xaml.cs:332-342 | the text is twice as long as the digest |
| HexFormat.HexAt | src/MainWindow.xaml.cs:336-340 | characters 2j and 2j+1 are the high and low digit of byte j |
| HexFormat.HexAlphabet | src/MainWindow.xaml.cs:334-341 | every character is from 0-9A-F under the upper toggle and from 0-9a-f otherwise, never mixed |
| HexFormat.DecodeHexRoundTrip | src/MainWindow.xaml.cs:332-342 | decoding the text gives back the digest's bytes |
| HexFormat.HexUpperIsBase16 | src/MainWindow.xaml.cs:336 | the upper-case text is the Base 16 encoding of section 8 of RFC 4648 |
| HexFormat.HexCases | src/MainWindow.xaml.cs:334-341 | the lower-case text is the upper-case text lower-cased, and conversely |
| HexFormat.DigitRoundTrip | src/MainWindow.xaml.cs:336-340 | each digit is from the chosen alphabet and decodes to its value |
| HexFormat.HexIsTrimmed | src/MainWindow.xaml.cs:345 | a shown digest holds no white space, so trimming leaves it unchanged |
| Compare.ClassifySpec | src/MainWindow.xaml.cs:386-420 | the label is transparent exactly when either text is blank, and otherwise green exactly when the trimmed texts are equal up to ASCII case |
| Compare.ClassifySymmetric | src/MainWindow.xaml.cs:409-420 | swapping the two texts never changes the label |
| Compare.ClassifyIgnoresToggle | src/MainWindow.xaml.cs:388-406 | under ASCII case mapping, the case toggle never changes the label |
| Compare.DigestMatchesItself | src/MainWindow.xaml.cs:386-420 | a non-empty digest shown in either case matches itself typed in either case, with any white space, or none, before and after it |
| Compare.BoolToCharacterCasing | src/MainWindow.xaml.cs:23-26 | only `true` maps to Upper; `false` and `null` map to Lower |
| Compare.UpperCaseConverterSpec | src/MainWindow.xaml.cs:38-46 | Convert leaves no lower-case letter and ConvertBack no upper-case one; both keep length and letters up to case; each undoes the other up to case |
| Digests.TableLists | src/MainWindow.xaml.cs:174-316 | the calculation visits each of the 24 algorithms exactly once, at its position |
| Digests.KeepSnoc | src/MainWindow.xaml.cs:174-178 | visiting one more check box appends its algorithm exactly when it is checked |
| Digests.SelectedSpec | src/MainWindow.xaml.cs:172-316 | the digest list holds exactly the checked algorithms, each once, in check-box order |
| Digests.DisplaySpec | src/MainWindow.xaml.cs:321-346 | showing a list of digests fills each listed algorithm's box with its hex text and leaves every other box as it was |
| Digests.DisplayBatch | src/MainWindow.xaml.cs:321-346 | showing the whole batch overlays the checked algorithms' texts on the result boxes |
| Digests.ResultsSpec | src/MainWindow.xaml.cs:321-346 | each shown text is twice the digest size, uses the toggle's alphabet only, and decodes to the digest |
| Window.LoadUntouched | src/MainWindow.xaml.cs:85-119 | a kind with no sidecar leaves its comparison box unchanged |
| Window.LoadPass | src/MainWindow.xaml.cs:85-119 | a selection completes without error exactly when every sidecar it finds names the file |
| Window.PassReadable | src/MainWindow.xaml.cs:85-119 | after a selection that completes, every sidecar found for the four kinds names the file |
| Window.FailUnreadable | src/MainWindow.xaml.cs:85-119 | a selection that raises the error found at least one sidecar that does not name the file |
| Window.LoadSucceeds | src/MainWindow.xaml.cs:85-92 | one sidecar block succeeds exactly when there is no sidecar of the kind or the one found names the file |
| Window.LoadResolved | src/MainWindow.xaml.cs:87-118 | after a completed selection, each kind with a sidecar holds the checksum read from it |
| Window.LoadFail | src/MainWindow.xaml.cs:141 | a failing selection reports the first sidecar that does not name the file, with its search string and path |
| Window.SpacedFileNameFails | src/MainWindow.xaml.cs:85-119 | for a file name with white space in it, the sidecar holding its record is unreadable: loading it raises NotFound with the whole file name and the sidecar's path |
| Window.SpacedSearchFails | src/MainWindow.xaml.cs:85-162 | a discovered sidecar whose search string has white space in it fails to load, whatever its lines, and the selection raises the error |
| Window.SpacedStemSelectionFails | src/MainWindow.xaml.cs:82-162 | a file whose name without extension has white space in it: a sidecar of any kind makes the selection raise the error |
| Window.UnreadableFails | src/MainWindow.xaml.cs:85-119 | one sidecar, of any kind, that does not name the file makes the selection raise the error |
| Window.SpacedFileNameSelectionFails | src/MainWindow.xaml.cs:85-162 | selecting a file whose name has white space in it, next to a sidecar holding its record, raises the not-found error |
| Window.SidecarRecordLoaded | src/MainWindow.xaml.cs:94-96 | an extension-preserving sidecar holding a record for the file, with any white-space spacing, fills the box with that checksum |
| Window.ResultOf | src/MainWindow.xaml.cs:380-384 | each comparison box is checked against the result box of the same name; the SFV (CRC-32) box has no calculated digest, and the others are MD5, SHA-1 and SHA-256 from the calculation's table |
| Window.SidecarDigestMatches | src/MainWindow.xaml.cs:386-420 | a sidecar recording the file's digest, in either case and with any white-space spacing, fills the kind's comparison box with that text, and that text and the calculated digest in the result box of the same name (MD5, SHA-1 or SHA-256) classify as green, which is what `cmp_TextChanged` computes the next time the comparison box changes |
| Window.MainWindow.constructor | src/MainWindow.xaml.cs:57-60 | a new window has empty text boxes and the given check states |
| Window.MainWindow.FindSidecar | src/MainWindow.xaml.cs:85-92 | the two `File.Exists` tests of a block pick exactly the sidecar that discovery specifies: the extension-preserving one first, then the extension-stripped one, else none |
| Window.LoadFound | src/MainWindow.xaml.cs:85-92 | without a sidecar the boxes stay as they are; otherwise reading the found sidecar gives the boxes with the resolved checksum in the kind's box, or the not-found error |
| Window.MainWindow.LoadSidecar | src/MainWindow.xaml.cs:85-92 | one sidecar block: on success the comparison box takes the resolved checksum; on failure it keeps its text and the error is raised; nothing else changes |
| Window.MainWindow.SelectFile | src/MainWindow.xaml.cs:62-121 | a cancelled dialog changes nothing; otherwise the file name is shown and the four sidecars are loaded in order, stopping at the first error |
| Window.MainWindow.Calculate | src/MainWindow.xaml.cs:165-347 | with no file name nothing changes; otherwise the result boxes become the old boxes overlaid with the checked digests' hex texts |
| Window.MainWindow.CheckedDigests | src/MainWindow.xaml.cs:172-316 | the list built check box by check box is the checked algorithms in table order |
| Window.MainWindow.ShowDigest | src/MainWindow.xaml.cs:321-345 | one algorithm's box receives the hex text of its digest; nothing else changes |
| Scenarios.SfvScenario | src/MainWindow.xaml.cs:123-139 | `README.md A1B2C3D4` in `README.sfv` yields `A1B2C3D4` |
| Scenarios.Md5Scenario | src/MainWindow.xaml.cs:144-160 | `3b8e92f0c1  README.md`, with md5sum's two spaces, in `README.md5` yields `3b8e92f0c1` |
| Scenarios.MalformedThenRecordScenario | src/MainWindow.xaml.cs:130-137 | a three-token line naming the file is skipped and the record after it is found |
| Scenarios.NoRecordScenario | src/MainWindow.xaml.cs:141 | a sidecar with only a malformed line and another file's record fails with NotFound("README", path) |
| Scenarios.MatchScenario | src/MainWindow.xaml.cs:386-415 | the text `CBF43926` typed into a comparison box is green against `cbf43926` in the result box, with the upper-case toggle on |

## Left out

- The file dialog, `File.Exists`, `File.ReadLines` and `File.ReadAllBytesAsync(...).Result`
  are I/O. The dialog's answer is an `Option` parameter, and the file system is
  a map from path to lines. The file's bytes come from a function parameter.
- The BouncyCastle digest classes (`BlockUpdate`, `DoFinal`, `GetDigestSize`) are
  a foreign library. A digest is a function parameter from algorithm and bytes
  to bytes. The per-algorithm sizes are library facts, so `Digests.ResultsSpec`
  takes them as a parameter.
- A digest primitive that throws is not modelled. Every digest is a total function.
- `btnClear_Click`, `btnAllDigests_Click` and the `LogicalTreeHelper` name lookups
  of `cmp_TextChanged` walk the WPF visual tree. The model indexes boxes by algorithm or kind instead.
- `Compare.Classify`'s inputs are the two texts; how the result box is found from the
  comparison box's name is left out with the lookups.
- `MainWindow.xaml` is not part of this model. Whether a CRC-32 result box exists is not known, and no
  calculation fills one, so `Window.ResultOf` gives the SFV box no digest to be compared with.
- `Sidecar.Message` is the text passed to `new ArgumentException(text, nameof(hashFilename))`
  (src/MainWindow.xaml.cs:141, :162). The exception's own `Message` property
  adds the parameter name after it, as ` (Parameter 'hashFilename')` on .NET Core
  3.0 and later. The model does not carry the parameter name, so what it states
  about the message is about that built text.
- `BoolToCharacterCasingConverter.ConvertBack` returns null and is not modelled.
- `Text.Contains`: `Contains(..., CurrentCulture)` is culture-sensitive and is modelled
  as an ordinal substring test.
- `HexFormat.ByteToHex`: `ToString("X2", CurrentCulture)` is modelled as ASCII digits.
- `Text.ToUpper`: `ToUpperInvariant`/`ToLowerInvariant` apply full Unicode case
  mapping, and the model maps only the ASCII letters.
- `Compare.ClassifyIgnoresToggle` holds for the ASCII mapping only. Under the
  full mappings the toggle can change the label: `K` (U+212A KELVIN SIGN)
  against `k` is red with the upper toggle and green with the lower one.
- `Window.SidecarDigestMatches` states what the two texts classify as, not
  when the label shows it. Only `cmp_TextChanged` colours a label, and it runs
  when a comparison box changes (src/MainWindow.xaml.cs:377-420). A calculation
  writes only the result boxes (:345), so a label keeps its colour until its
  comparison box changes again. A label computed when a second file is
  selected compares the new checksum with the digest of the first file, since
  `SelectFile` keeps the result boxes.
- The not-found `ArgumentException` (src/MainWindow.xaml.cs:141, :162) is
  caught nowhere, and `App` adds no handler, so the application ends there.
  The model returns `Fail` instead, with the window's state as it was when the
  error was raised. The program does not go on from that state, although a
  later `Calculate` in the model could.
- `Paths.DirectoryName`: `Path.GetDirectoryName` is simplified to the prefix before the last separator.
  Root paths (where .NET returns null or keeps the root's separator), UNC
  prefixes and path normalisation are not modelled.
- Converter inputs are modelled as strings and check states. The `ToString()` of an
  arbitrary object, or of null, is not.
- The case toggle is read once per calculation. The source rereads it for every
  byte, but nothing can change it while the handler runs.
- `src/App.xaml.cs` is an empty application class and holds no logic.
