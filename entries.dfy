/**
 * FindData: one node found by a directory walk, identified by its path
 * relative to the walk root, and the one-line text form used for the
 * manifest of deleted entries.
 */
module Entries {
  import opened Wrappers
  import opened Strings

  /**
   * A found node. `relativePath` is computed once, when the entry is made,
   * by NewFindData; it is the node's identity when two trees are compared.
   */
  datatype FindData = FindData(baseDir: string, path: string, relativePath: string, isDirectory: bool)

  /**
   * The FindData constructor: the relative path is what follows the first
   * occurrence of `baseDir` in `path`. The walk always passes a path that
   * contains `baseDir` (the npos case is outside the model).
   */
  function NewFindData(baseDir: string, path: string, isDirectory: bool): (fd: FindData)
    requires Find(path, baseDir).Some?
    ensures fd.baseDir == baseDir && fd.path == path && fd.isDirectory == isDirectory
    ensures var pos := Find(path, baseDir).value;
              path == path[..pos] + baseDir + fd.relativePath
  {
    var pos := Find(path, baseDir).value;
    var fd := FindData(baseDir, path, path[pos + |baseDir|..], isDirectory);
    assert path == path[..pos] + baseDir + fd.relativePath;
    fd
  }

  /** A path built as `baseDir + s` has relative path exactly `s`. */
  lemma RelativePathOfJoin(baseDir: string, s: string, isDirectory: bool)
    ensures Find(baseDir + s, baseDir).Some?
    ensures NewFindData(baseDir, baseDir + s, isDirectory).relativePath == s
  {
    FindPrefix(baseDir, baseDir + s);
  }

  /**
   * operator<: entries are ordered by relative path alone, so an entry is
   * never before one with the same relative path.
   */
  predicate Before(lhs: FindData, rhs: FindData)
    ensures Before(lhs, rhs) ==> lhs.relativePath != rhs.relativePath
  {
    LessIrreflexive(lhs.relativePath);
    Less(lhs.relativePath, rhs.relativePath)
  }

  /**
   * Two entries are equivalent under operator< (neither is before the other)
   * exactly when their relative paths are equal, whatever their other fields:
   * a file and a directory at the same relative path are equivalent.
   */
  lemma EquivalentIffSameRelativePath(lhs: FindData, rhs: FindData)
    ensures (!Before(lhs, rhs) && !Before(rhs, lhs)) <==> lhs.relativePath == rhs.relativePath
  {
    EquivalentIffEqual(lhs.relativePath, rhs.relativePath);
  }

  /** The set of relative paths of a list of entries: the keys the set algorithms compare. */
  function Keys(s: seq<FindData>): set<string> {
    set e | e in s :: e.relativePath
  }

  /** No two entries of the list share a relative path. */
  predicate UniqueKeys(s: seq<FindData>) {
    forall i, j :: 0 <= i < j < |s| ==> s[i].relativePath != s[j].relativePath
  }

  /** Joining two lists keeps the keys unique when no key occurs in both. */
  lemma UniqueKeysConcat(s: seq<FindData>, t: seq<FindData>)
    requires UniqueKeys(s) && UniqueKeys(t)
    requires forall e, f | e in s && f in t :: e.relativePath != f.relativePath
    ensures UniqueKeys(s + t)
  {
    forall i, j | 0 <= i < j < |s + t|
      ensures (s + t)[i].relativePath != (s + t)[j].relativePath
    {
      if j < |s| {
        assert (s + t)[i] == s[i] && (s + t)[j] == s[j];
      } else if i < |s| {
        assert (s + t)[i] == s[i] && (s + t)[j] == t[j - |s|];
      } else {
        assert (s + t)[i] == t[i - |s|] && (s + t)[j] == t[j - |s|];
      }
    }
  }

  const DirectoryTag: string := "Directory: "
  const FileTag: string := "File: "

  /**
   * operator<<: the tag for the kind of entry, then its relative path. The
   * line starts with the directory tag exactly for a directory and with the
   * file tag exactly for a file.
   */
  function Line(fd: FindData): (line: string)
    ensures IsPrefix(DirectoryTag, line) <==> fd.isDirectory
    ensures IsPrefix(FileTag, line) <==> !fd.isDirectory
  {
    var line := (if fd.isDirectory then DirectoryTag else FileTag) + fd.relativePath;
    assert line[0] == (if fd.isDirectory then 'D' else 'F');
    assert IsPrefix(if fd.isDirectory then DirectoryTag else FileTag, line);
    line
  }

  /** Reads a manifest line back into its kind and relative path. */
  function ParseLine(line: string): (r: Option<(bool, string)>)
    ensures r.Some? ==> Line(FindData("", "", r.value.1, r.value.0)) == line
  {
    if IsPrefix(DirectoryTag, line) then Some((true, line[|DirectoryTag|..]))
    else if IsPrefix(FileTag, line) then Some((false, line[|FileTag|..]))
    else None
  }

  /**
   * A line determines the entry's kind and relative path: parsing it gives
   * them back, so two entries with different kind or path never share a line.
   */
  lemma {:induction false} LineRoundTrip(fd: FindData)
    ensures ParseLine(Line(fd)) == Some((fd.isDirectory, fd.relativePath))
  {
    var line := Line(fd);
    if fd.isDirectory {
      assert IsPrefix(DirectoryTag, line);
      assert line[|DirectoryTag|..] == fd.relativePath;
    } else {
      assert line[0] == 'F' && DirectoryTag[0] == 'D';
      assert !IsPrefix(DirectoryTag, line);
      assert IsPrefix(FileTag, line);
      assert line[|FileTag|..] == fd.relativePath;
    }
  }
}
