/**
 * The parts of .NET's System.IO.Path on Windows that the hash tool uses to
 * name sidecar files: the file name, the file name without its extension and
 * the directory name of a path.
 */
module Paths {

  /** Windows accepts both the backslash and the slash as directory separators. */
  predicate IsSeparator(c: char) {
    c == '\\' || c == '/'
  }

  predicate IsDot(c: char) {
    c == '.'
  }

  predicate NoSeparator(s: string) {
    forall i :: 0 <= i < |s| ==> !IsSeparator(s[i])
  }

  predicate NoDot(s: string) {
    forall i :: 0 <= i < |s| ==> !IsDot(s[i])
  }

  /** The index of the last character of s that is a target, or -1 when there is none. */
  function LastIndexWhere(s: string, target: char -> bool): (k: int)
    ensures -1 <= k < |s|
    ensures k >= 0 ==> target(s[k])
    ensures forall j :: k < j < |s| ==> !target(s[j])
  {
    if s == [] then -1
    else if target(s[|s| - 1]) then |s| - 1
    else LastIndexWhere(s[..|s| - 1], target)
  }

  /** Path.GetFileName: the part of the path after its last separator. */
  function FileName(path: string): (name: string)
    ensures |name| <= |path| && name == path[|path| - |name|..]
    ensures NoSeparator(name)
    ensures |name| == |path| || IsSeparator(path[|path| - |name| - 1])
  {
    path[LastIndexWhere(path, IsSeparator) + 1..]
  }

  /** Path.GetDirectoryName: the part of the path before its last separator,
      and the empty string when the path has no separator. */
  function DirectoryName(path: string): (dir: string)
    ensures dir <= path
    ensures
      || (dir == "" && NoSeparator(path))
      || (|dir| < |path| && IsSeparator(path[|dir|]) && path == dir + [path[|dir|]] + FileName(path))
  {
    var k := LastIndexWhere(path, IsSeparator);
    if k < 0 then "" else
      var dir := path[..k];
      assert path == dir + [path[k]] + path[k + 1..];
      dir
  }

  /** stem is name less its last dot and what follows it, or all of name when
      name has no dot. */
  predicate IsStemOf(stem: string, name: string) {
    && stem <= name
    && (|| (stem == name && NoDot(name))
        || (|stem| < |name| && IsDot(name[|stem|]) && NoDot(name[|stem| + 1..])))
  }

  function RemoveExtension(name: string): (stem: string)
    ensures IsStemOf(stem, name)
  {
    var k := LastIndexWhere(name, IsDot);
    if k < 0 then name else
      var stem := name[..k];
      assert name[|stem| + 1..] == name[k + 1..];
      stem
  }

  /** Path.GetFileNameWithoutExtension: the file name, less its last dot and
      what follows it. */
  function FileNameWithoutExtension(path: string): (stem: string)
    ensures IsStemOf(stem, FileName(path))
  {
    RemoveExtension(FileName(path))
  }

  /** The path of the selected file with the extension of its name removed:
      its directory, a backslash and the name without extension. */
  function StripExtension(path: string): string {
    DirectoryName(path) + "\\" + FileNameWithoutExtension(path)
  }

  lemma {:induction false} LastIndexSkipsTail(a: string, b: string, target: char -> bool)
    requires forall i :: 0 <= i < |b| ==> !target(b[i])
    ensures LastIndexWhere(a + b, target) == LastIndexWhere(a, target)
    decreases |b|
  {
    if b != [] {
      var b' := b[..|b| - 1];
      assert (a + b)[..|a + b| - 1] == a + b';
      LastIndexSkipsTail(a, b', target);
    } else {
      assert a + b == a;
    }
  }

  lemma LastIndexAtMark(a: string, c: char, b: string, target: char -> bool)
    requires target(c)
    requires forall i :: 0 <= i < |b| ==> !target(b[i])
    ensures LastIndexWhere(a + [c] + b, target) == |a|
  {
    LastIndexSkipsTail(a + [c], b, target);
    assert (a + [c])[..|a|] == a;
  }

  /** Appending a suffix without separators to a path appends it to the file name. */
  lemma FileNameAppend(path: string, suffix: string)
    requires NoSeparator(suffix)
    ensures FileName(path + suffix) == FileName(path) + suffix
  {
    LastIndexSkipsTail(path, suffix, IsSeparator);
    var k := LastIndexWhere(path, IsSeparator);
    assert (path + suffix)[k + 1..] == path[k + 1..] + suffix;
  }

  /** A name without separators put under any directory is the file name of the result. */
  lemma FileNameUnder(dir: string, name: string)
    requires NoSeparator(name)
    ensures FileName(dir + "\\" + name) == name
  {
    LastIndexAtMark(dir, '\\', name, IsSeparator);
    assert dir + "\\" + name == dir + ['\\'] + name;
    assert (dir + ['\\'] + name)[|dir| + 1..] == name;
  }

  /** Adding one more extension to a path makes the whole old file name the
      name without extension: photo.jpg.md5 stands for photo.jpg. */
  lemma StemOfAddedExtension(path: string, ext: string)
    requires NoSeparator(ext) && NoDot(ext)
    ensures FileNameWithoutExtension(path + "." + ext) == FileName(path)
  {
    FileNameOfAddedExtension(path, ext);
    RemoveAddedExtension(FileName(path), ext);
  }

  lemma FileNameOfAddedExtension(path: string, ext: string)
    requires NoSeparator(ext)
    ensures FileName(path + "." + ext) == FileName(path) + ['.'] + ext
  {
    var suffix := "." + ext;
    assert NoSeparator(suffix) by {
      assert forall i :: 0 < i < |suffix| ==> suffix[i] == ext[i - 1];
    }
    FileNameAppend(path, suffix);
    assert path + "." + ext == path + suffix;
    assert FileName(path) + suffix == FileName(path) + ['.'] + ext;
  }

  /** Removing the extension of a name with one more extension added gives the name back. */
  lemma RemoveAddedExtension(name: string, ext: string)
    requires NoDot(ext)
    ensures RemoveExtension(name + ['.'] + ext) == name
  {
    LastIndexAtMark(name, '.', ext, IsDot);
    assert (name + ['.'] + ext)[..|name|] == name;
  }

  lemma StemUnder(dir: string, stem: string, ext: string)
    requires NoSeparator(stem) && NoSeparator(ext) && NoDot(ext)
    ensures FileNameWithoutExtension(dir + "\\" + stem + "." + ext) == stem
  {
    var name := stem + "." + ext;
    assert NoSeparator(name);
    FileNameUnder(dir, name);
    assert dir + "\\" + stem + "." + ext == dir + "\\" + name;
    assert name == stem + ['.'] + ext;
    LastIndexAtMark(stem, '.', ext, IsDot);
    assert name[..|stem|] == stem;
  }

  /** The sidecar named after the path with its extension replaced stands for
      the file name without extension: photo.md5 stands for photo. */
  lemma StemOfReplacedExtension(path: string, ext: string)
    requires NoSeparator(ext) && NoDot(ext)
    ensures FileNameWithoutExtension(StripExtension(path) + "." + ext) == FileNameWithoutExtension(path)
  {
    var stem := FileNameWithoutExtension(path);
    assert NoSeparator(stem) by {
      forall i | 0 <= i < |stem| ensures !IsSeparator(stem[i]) {
        assert stem[i] == FileName(path)[i];
      }
    }
    StemUnder(DirectoryName(path), stem, ext);
  }
}
