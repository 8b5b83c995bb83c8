/**
 * Change classification: of the entries present in both trees, the modified
 * ones are the files whose content hash differs between the target and the
 * source tree.
 */
module Classification {
  import opened Entries
  import opened SetAlgebra

  /**
   * An entry of the intersection is modified when it is not a directory and
   * the hash of the target copy differs from the hash of the source copy.
   * `md5` stands for getFileMD5, which yields "" for a file it cannot read.
   */
  predicate IsModified(fd: FindData, targetdir: string, sourcedir: string, md5: string -> string) {
    !fd.isDirectory && md5(targetdir + fd.relativePath) != md5(sourcedir + fd.relativePath)
  }

  /** The modified entries of `inter`, in order. */
  function Modified(inter: seq<FindData>, targetdir: string, sourcedir: string, md5: string -> string): seq<FindData> {
    if inter == [] then []
    else
      var last := inter[|inter| - 1];
      Modified(inter[..|inter| - 1], targetdir, sourcedir, md5)
        + (if IsModified(last, targetdir, sourcedir, md5) then [last] else [])
  }

  /** The for_each over the intersection that collects the modified files. */
  method FindModified(inter: seq<FindData>, targetdir: string, sourcedir: string, md5: string -> string)
    returns (modified: seq<FindData>)
    ensures modified == Modified(inter, targetdir, sourcedir, md5)
  {
    modified := [];
    for i := 0 to |inter|
      invariant modified == Modified(inter[..i], targetdir, sourcedir, md5)
    {
      assert inter[..i + 1][..i] == inter[..i];
      var fd := inter[i];
      if !fd.isDirectory {
        var targetFileMD5 := md5(targetdir + fd.relativePath);
        var sourceFileMD5 := md5(sourcedir + fd.relativePath);
        if targetFileMD5 != sourceFileMD5 {
          modified := modified + [fd];
        }
      }
    }
    assert inter[..|inter|] == inter;
  }

  /** The modified list holds exactly the modified entries of the intersection. */
  lemma {:induction false} ModifiedMembers(inter: seq<FindData>, targetdir: string, sourcedir: string, md5: string -> string)
    ensures forall e :: e in Modified(inter, targetdir, sourcedir, md5) <==>
      e in inter && IsModified(e, targetdir, sourcedir, md5)
  {
    if inter != [] {
      ModifiedMembers(inter[..|inter| - 1], targetdir, sourcedir, md5);
      assert inter == inter[..|inter| - 1] + [inter[|inter| - 1]];
    }
  }

  /** The modified list keeps the order of the intersection: it is a subsequence of it. */
  lemma {:induction false} ModifiedSubsequence(inter: seq<FindData>, targetdir: string, sourcedir: string, md5: string -> string)
    ensures IsSubsequence(Modified(inter, targetdir, sourcedir, md5), inter)
  {
    if inter != [] {
      var init, last := inter[..|inter| - 1], inter[|inter| - 1];
      ModifiedSubsequence(init, targetdir, sourcedir, md5);
      assert init + [last] == inter;
      var m := Modified(inter, targetdir, sourcedir, md5);
      if IsModified(last, targetdir, sourcedir, md5) {
        assert m[..|m| - 1] == Modified(init, targetdir, sourcedir, md5);
      } else {
        assert m == Modified(init, targetdir, sourcedir, md5);
        SubsequenceExtend(m, init, last);
      }
    }
  }

  /** So the modified list is sorted whenever the intersection is. */
  lemma ModifiedIncreasing(inter: seq<FindData>, targetdir: string, sourcedir: string, md5: string -> string)
    requires Increasing(inter)
    ensures Increasing(Modified(inter, targetdir, sourcedir, md5))
  {
    ModifiedSubsequence(inter, targetdir, sourcedir, md5);
    SubsequenceIncreasing(Modified(inter, targetdir, sourcedir, md5), inter);
  }

  /**
   * A file neither of whose copies can be read hashes to "" on both sides and
   * is therefore not modified, whatever its contents.
   */
  lemma UnreadableIsUnmodified(inter: seq<FindData>, targetdir: string, sourcedir: string, md5: string -> string, fd: FindData)
    requires md5(targetdir + fd.relativePath) == "" && md5(sourcedir + fd.relativePath) == ""
    ensures fd !in Modified(inter, targetdir, sourcedir, md5)
  {
    ModifiedMembers(inter, targetdir, sourcedir, md5);
  }
}
