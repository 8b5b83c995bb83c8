/**
 * copyProcedure: make every missing ancestor directory of an entry's
 * relative path under the output root, shortest first, then copy the entry
 * from the target root to the same relative path under the output root. The
 * first refusal aborts; nothing done before it is undone.
 */
module Copying {
  import opened Wrappers
  import opened Strings
  import opened Entries
  import opened FileSystem

  /** The state after some calls, and the fault that stopped them, if any. */
  datatype Outcome = Outcome(disk: Disk, fault: Option<Fault>)

  /**
   * The directories copyProcedure asks for, one per backslash among the
   * first `n` characters of `rel`: the output root followed by `rel` up to and
   * including that backslash.
   */
  function Ancestors(outputdir: string, rel: string, n: nat): seq<string>
    requires n <= |rel|
  {
    if n == 0 then []
    else Ancestors(outputdir, rel, n - 1) + (if rel[n - 1] == Backslash then [outputdir + rel[..n]] else [])
  }

  /** One pass of the directory loop: skip a directory that exists, otherwise create it. */
  function EnsureDirectory(d: Disk, host: Host, dir: string): (r: Outcome)
  {
    if dir in d.present then Outcome(d, None)
    else if dir !in host.cannotCreate then Outcome(AfterCreate(d, dir), None)
    else Outcome(d, Some(CreateDirectoryFailed(dir)))
  }

  /** The directory loop run over the backslashes among the first `n` characters of `rel`. */
  function EnsureAncestors(d: Disk, host: Host, outputdir: string, rel: string, n: nat): Outcome
    requires n <= |rel|
  {
    if n == 0 then Outcome(d, None)
    else
      var r := EnsureAncestors(d, host, outputdir, rel, n - 1);
      if r.fault.Some? || rel[n - 1] != Backslash then r
      else EnsureDirectory(r.disk, host, outputdir + rel[..n])
  }

  /** The copy copyProcedure makes for `fd`. */
  function CopyOf(targetdir: string, outputdir: string, fd: FindData): Copy {
    Copy(targetdir + fd.relativePath, outputdir + fd.relativePath)
  }

  /** copyProcedure on one entry. */
  function CopyEntry(d: Disk, host: Host, targetdir: string, outputdir: string, fd: FindData): Outcome {
    var r := EnsureAncestors(d, host, outputdir, fd.relativePath, |fd.relativePath|);
    var c := CopyOf(targetdir, outputdir, fd);
    if r.fault.Some? then r
    else if c !in host.cannotCopy then Outcome(AfterCopy(r.disk, c), None)
    else Outcome(r.disk, Some(CopyFailed(c.from, c.to)))
  }

  /** std::for_each(entries, copyProcedure): stops at the first entry that faults. */
  function CopyAll(d: Disk, host: Host, targetdir: string, outputdir: string, entries: seq<FindData>): Outcome {
    if entries == [] then Outcome(d, None)
    else
      var r := CopyAll(d, host, targetdir, outputdir, entries[..|entries| - 1]);
      if r.fault.Some? then r
      else CopyEntry(r.disk, host, targetdir, outputdir, entries[|entries| - 1])
  }

  /** The copies of a list of entries, in order. */
  function CopiesOf(targetdir: string, outputdir: string, entries: seq<FindData>): (r: seq<Copy>)
    ensures |r| == |entries|
    ensures forall i :: 0 <= i < |r| ==> r[i] == CopyOf(targetdir, outputdir, entries[i])
  {
    if entries == [] then [] else CopiesOf(targetdir, outputdir, entries[..|entries| - 1]) + [CopyOf(targetdir, outputdir, entries[|entries| - 1])]
  }

  /** The entries of `dirs` not in `present`, in order. */
  function Missing(present: set<string>, dirs: seq<string>): seq<string> {
    if dirs == [] then []
    else Missing(present, dirs[..|dirs| - 1]) + (if dirs[|dirs| - 1] in present then [] else [dirs[|dirs| - 1]])
  }

  // ----- The imperative procedure -----

  /** The copyProcedure lambda: the find_first_of loop, then CopyFileA. */
  method CopyProcedure(fs: FileSystem, targetdir: string, outputdir: string, fd: FindData) returns (fault: Option<Fault>)
    modifies fs
    ensures Outcome(fs.State(), fault) == CopyEntry(old(fs.State()), fs.host, targetdir, outputdir, fd)
  {
    var rel := fd.relativePath;
    ghost var d0 := fs.State();
    ghost var scanned: nat := 0;
    var pos := FindFirstOf(rel, Backslash, 0);
    while pos.Some?
      invariant scanned <= |rel|
      invariant pos == FindFirstOf(rel, Backslash, scanned)
      invariant EnsureAncestors(d0, fs.host, outputdir, rel, scanned) == Outcome(fs.State(), None)
      decreases |rel| - scanned
    {
      var p := pos.value;
      SkipUpTo(d0, fs.host, outputdir, rel, scanned, p);
      var dir := outputdir + rel[..p + 1];
      if !fs.PathFileExists(dir) {
        var ok := fs.CreateDirectory(dir);
        if !ok {
          fault := Some(CreateDirectoryFailed(dir));
          AbortStays(d0, fs.host, outputdir, rel, p + 1, |rel|);
          return;
        }
      }
      scanned := p + 1;
      pos := FindFirstOf(rel, Backslash, p + 1);
    }
    SkipUpTo(d0, fs.host, outputdir, rel, scanned, |rel|);
    var ok := fs.CopyFile(targetdir + rel, outputdir + rel);
    if !ok {
      fault := Some(CopyFailed(targetdir + rel, outputdir + rel));
    } else {
      fault := None;
    }
  }

  /** The for_each that applies copyProcedure to each entry in turn, ended by the first fault. */
  method CopyEach(fs: FileSystem, targetdir: string, outputdir: string, entries: seq<FindData>) returns (fault: Option<Fault>)
    modifies fs
    ensures Outcome(fs.State(), fault) == CopyAll(old(fs.State()), fs.host, targetdir, outputdir, entries)
  {
    ghost var d0 := fs.State();
    for i := 0 to |entries|
      invariant CopyAll(d0, fs.host, targetdir, outputdir, entries[..i]) == Outcome(fs.State(), None)
    {
      assert entries[..i + 1][..i] == entries[..i];
      fault := CopyProcedure(fs, targetdir, outputdir, entries[i]);
      if fault.Some? {
        CopyAllAbortStays(d0, fs.host, targetdir, outputdir, entries, i + 1);
        return;
      }
    }
    assert entries[..|entries|] == entries;
    fault := None;
  }

  // ----- Lemmas the loops use -----

  /** No backslash between `from` and `to`: the directory loop has nothing to do there. */
  lemma {:induction false} SkipUpTo(d: Disk, host: Host, outputdir: string, rel: string, lo: nat, hi: nat)
    requires lo <= hi <= |rel|
    requires forall j :: lo <= j < hi ==> rel[j] != Backslash
    ensures EnsureAncestors(d, host, outputdir, rel, hi) == EnsureAncestors(d, host, outputdir, rel, lo)
    decreases hi
  {
    if hi > lo {
      SkipUpTo(d, host, outputdir, rel, lo, hi - 1);
    }
  }

  /** Once a directory fails, the rest of the loop is never reached. */
  lemma {:induction false} AbortStays(d: Disk, host: Host, outputdir: string, rel: string, n: nat, m: nat)
    requires n <= m <= |rel|
    requires EnsureAncestors(d, host, outputdir, rel, n).fault.Some?
    ensures EnsureAncestors(d, host, outputdir, rel, m) == EnsureAncestors(d, host, outputdir, rel, n)
    decreases m - n
  {
    if m > n {
      AbortStays(d, host, outputdir, rel, n, m - 1);
    }
  }

  /** Once an entry faults, no later entry is copied. */
  lemma {:induction false} CopyAllAbortStays(d: Disk, host: Host, targetdir: string, outputdir: string, entries: seq<FindData>, n: nat)
    requires n <= |entries|
    requires CopyAll(d, host, targetdir, outputdir, entries[..n]).fault.Some?
    ensures CopyAll(d, host, targetdir, outputdir, entries) == CopyAll(d, host, targetdir, outputdir, entries[..n])
    decreases |entries| - n
  {
    if n < |entries| {
      var init := entries[..|entries| - 1];
      assert init[..n] == entries[..n];
      CopyAllAbortStays(d, host, targetdir, outputdir, init, n);
    } else {
      assert entries[..n] == entries;
    }
  }

  // ----- What copyProcedure does -----

  /**
   * A directory copyProcedure may ask for: a prefix of the entry's output path
   * that goes past the output root and ends in a backslash.
   */
  predicate IsAncestor(outputdir: string, rel: string, x: string) {
    IsPrefix(x, outputdir + rel) && |outputdir| < |x| && x[|x| - 1] == Backslash
  }

  /**
   * The directories asked for are the prefixes of the output path that end in
   * a backslash after the output root: every one of them, each once, shortest
   * first.
   */
  lemma {:induction false} AncestorsShape(outputdir: string, rel: string, n: nat)
    requires n <= |rel|
    ensures forall i :: 0 <= i < |Ancestors(outputdir, rel, n)| ==>
      IsAncestor(outputdir, rel, Ancestors(outputdir, rel, n)[i]) && |Ancestors(outputdir, rel, n)[i]| <= |outputdir| + n
    ensures forall i, j :: 0 <= i < j < |Ancestors(outputdir, rel, n)| ==>
      |Ancestors(outputdir, rel, n)[i]| < |Ancestors(outputdir, rel, n)[j]|
    ensures forall k :: 0 < k <= n && rel[k - 1] == Backslash ==> outputdir + rel[..k] in Ancestors(outputdir, rel, n)
  {
    if n > 0 {
      AncestorsShape(outputdir, rel, n - 1);
      var a := Ancestors(outputdir, rel, n - 1);
      if rel[n - 1] == Backslash {
        var x := outputdir + rel[..n];
        var b := a + [x];
        assert Ancestors(outputdir, rel, n) == b;
        assert IsAncestor(outputdir, rel, x) by {
          assert (outputdir + rel)[..|x|] == x;
        }
        forall i | 0 <= i < |b|
          ensures IsAncestor(outputdir, rel, b[i]) && |b[i]| <= |outputdir| + n
        {
          if i < |a| {
            assert b[i] == a[i];
          }
        }
        forall i, j | 0 <= i < j < |b| ensures |b[i]| < |b[j]| {
          assert b[i] == a[i];
          if j < |a| {
            assert b[j] == a[j];
          }
        }
      } else {
        assert Ancestors(outputdir, rel, n) == a;
      }
    }
  }

  /** The whole path of an entry whose relative path does not end in a backslash is never asked for. */
  lemma LastComponentNotCreated(outputdir: string, rel: string)
    requires rel != [] && rel[|rel| - 1] != Backslash
    ensures outputdir + rel !in Ancestors(outputdir, rel, |rel|)
  {
    AncestorsShape(outputdir, rel, |rel|);
  }

  /** The directory loop only makes directories: it never copies or writes a file. */
  lemma {:induction false} EnsureAncestorsFrame(d: Disk, host: Host, outputdir: string, rel: string, n: nat)
    requires n <= |rel|
    ensures EnsureAncestors(d, host, outputdir, rel, n).disk.copies == d.copies
    ensures EnsureAncestors(d, host, outputdir, rel, n).disk.files == d.files
  {
    if n > 0 {
      EnsureAncestorsFrame(d, host, outputdir, rel, n - 1);
    }
  }

  /** The elements of a list of paths. */
  function Elements(a: seq<string>): set<string> {
    if a == [] then {} else Elements(a[..|a| - 1]) + {a[|a| - 1]}
  }

  /** Reaching a backslash adds its directory; it is missing exactly when it is not present. */
  lemma AncestorsStep(present: set<string>, outputdir: string, rel: string, n: nat)
    requires 0 < n <= |rel| && rel[n - 1] == Backslash
    ensures Ancestors(outputdir, rel, n) == Ancestors(outputdir, rel, n - 1) + [outputdir + rel[..n]]
    ensures outputdir + rel[..n] !in Elements(Ancestors(outputdir, rel, n - 1))
    ensures Elements(Ancestors(outputdir, rel, n)) == Elements(Ancestors(outputdir, rel, n - 1)) + {outputdir + rel[..n]}
    ensures Missing(present, Ancestors(outputdir, rel, n)) ==
      Missing(present, Ancestors(outputdir, rel, n - 1)) + (if outputdir + rel[..n] in present then [] else [outputdir + rel[..n]])
  {
    var a := Ancestors(outputdir, rel, n - 1);
    var x := outputdir + rel[..n];
    AncestorsShape(outputdir, rel, n - 1);
    assert (a + [x])[..|a|] == a;
    ElementsMembers(a);
  }

  lemma {:induction false} ElementsMembers(a: seq<string>)
    ensures forall x :: x in Elements(a) <==> x in a
  {
    if a != [] {
      ElementsMembers(a[..|a| - 1]);
      assert a == a[..|a| - 1] + [a[|a| - 1]];
    }
  }

  /**
   * When the directory loop succeeds it has made exactly the missing
   * ancestors, in order; the ancestors now all exist.
   */
  lemma {:induction false} EnsureAncestorsSuccess(d: Disk, host: Host, outputdir: string, rel: string, n: nat)
    requires n <= |rel|
    requires EnsureAncestors(d, host, outputdir, rel, n).fault.None?
    ensures EnsureAncestors(d, host, outputdir, rel, n).disk.present == d.present + Elements(Ancestors(outputdir, rel, n))
    ensures EnsureAncestors(d, host, outputdir, rel, n).disk.created == d.created + Missing(d.present, Ancestors(outputdir, rel, n))
  {
    if n > 0 {
      var r0 := EnsureAncestors(d, host, outputdir, rel, n - 1);
      assert r0.fault.None?;
      EnsureAncestorsSuccess(d, host, outputdir, rel, n - 1);
      var r := EnsureAncestors(d, host, outputdir, rel, n);
      if rel[n - 1] == Backslash {
        AncestorsStep(d.present, outputdir, rel, n);
        var x := outputdir + rel[..n];
        assert r == EnsureDirectory(r0.disk, host, x);
        if x in d.present {
          assert r.disk == r0.disk;
        } else {
          assert x !in r0.disk.present;
          assert r.disk == AfterCreate(r0.disk, x);
        }
      } else {
        assert r == r0;
        assert Ancestors(outputdir, rel, n) == Ancestors(outputdir, rel, n - 1);
      }
    }
  }

  /**
   * The directory loop succeeds exactly when the host makes every missing
   * ancestor; when it fails, the directory it names is a missing ancestor
   * the host refused.
   */
  lemma {:induction false} EnsureAncestorsFault(d: Disk, host: Host, outputdir: string, rel: string, n: nat)
    requires n <= |rel|
    ensures EnsureAncestors(d, host, outputdir, rel, n).fault.None? <==>
            forall i :: 0 <= i < |Missing(d.present, Ancestors(outputdir, rel, n))| ==>
              Missing(d.present, Ancestors(outputdir, rel, n))[i] !in host.cannotCreate
    ensures var f := EnsureAncestors(d, host, outputdir, rel, n).fault;
      f.Some? ==> f.value.CreateDirectoryFailed? && f.value.dir in Missing(d.present, Ancestors(outputdir, rel, n))
                  && f.value.dir in host.cannotCreate
  {
    if n > 0 {
      var r0 := EnsureAncestors(d, host, outputdir, rel, n - 1);
      var r := EnsureAncestors(d, host, outputdir, rel, n);
      EnsureAncestorsFault(d, host, outputdir, rel, n - 1);
      var m := Missing(d.present, Ancestors(outputdir, rel, n - 1));
      if rel[n - 1] == Backslash {
        var x := outputdir + rel[..n];
        AncestorsStep(d.present, outputdir, rel, n);
        var m' := m + (if x in d.present then [] else [x]);
        assert Missing(d.present, Ancestors(outputdir, rel, n)) == m';
        assert forall i :: 0 <= i < |m| ==> m'[i] == m[i];
        if r0.fault.Some? {
          assert r == r0;
        } else {
          assert x in r0.disk.present <==> x in d.present by {
            EnsureAncestorsSuccess(d, host, outputdir, rel, n - 1);
            ElementsMembers(Ancestors(outputdir, rel, n - 1));
          }
          assert r == EnsureDirectory(r0.disk, host, x);
          if x in d.present {
            assert r.fault.None? && m' == m;
          } else if x in host.cannotCreate {
            assert r.fault == Some(CreateDirectoryFailed(x)) && m'[|m|] == x;
          } else {
            assert r.fault.None? && m' == m + [x];
          }
        }
      } else {
        assert r == r0;
        assert Ancestors(outputdir, rel, n) == Ancestors(outputdir, rel, n - 1);
      }
    }
  }

  /**
   * copyProcedure on one entry succeeds exactly when the host makes every
   * missing ancestor and allows the copy; it then adds exactly the copy from
   * the target root to the output root at the entry's relative path. When it
   * fails, no copy is added and no file is written.
   */
  lemma CopyEntryEffect(d: Disk, host: Host, targetdir: string, outputdir: string, fd: FindData)
    ensures var r := CopyEntry(d, host, targetdir, outputdir, fd);
      var a := Ancestors(outputdir, fd.relativePath, |fd.relativePath|);
      && (r.fault.None? <==> (forall i :: 0 <= i < |Missing(d.present, a)| ==> Missing(d.present, a)[i] !in host.cannotCreate)
                             && CopyOf(targetdir, outputdir, fd) !in host.cannotCopy)
      && (r.fault.None? ==> r.disk.copies == d.copies + [CopyOf(targetdir, outputdir, fd)])
      && (r.fault.Some? ==> r.disk.copies == d.copies)
      && r.disk.files == d.files
  {
    EnsureAncestorsFault(d, host, outputdir, fd.relativePath, |fd.relativePath|);
    EnsureAncestorsFrame(d, host, outputdir, fd.relativePath, |fd.relativePath|);
  }

  /**
   * Applying copyProcedure to a list never writes a file. If it completes it
   * has copied every entry, in order; if it aborts, the copies made before the
   * failing entry are kept and nothing after it is copied.
   */
  lemma {:induction false} CopyAllEffect(d: Disk, host: Host, targetdir: string, outputdir: string, entries: seq<FindData>)
    ensures var r := CopyAll(d, host, targetdir, outputdir, entries);
      && r.disk.files == d.files
      && (r.fault.None? ==> r.disk.copies == d.copies + CopiesOf(targetdir, outputdir, entries))
      && (r.fault.Some? ==> exists k :: 0 <= k < |entries| && r.disk.copies == d.copies + CopiesOf(targetdir, outputdir, entries[..k]))
  {
    if entries != [] {
      var init := entries[..|entries| - 1];
      var last := entries[|entries| - 1];
      CopyAllEffect(d, host, targetdir, outputdir, init);
      var r0 := CopyAll(d, host, targetdir, outputdir, init);
      if r0.fault.Some? {
        var k :| 0 <= k < |init| && r0.disk.copies == d.copies + CopiesOf(targetdir, outputdir, init[..k]);
        assert init[..k] == entries[..k];
      } else {
        CopyEntryEffect(r0.disk, host, targetdir, outputdir, last);
        var r := CopyAll(d, host, targetdir, outputdir, entries);
        if r.fault.Some? {
          assert entries[..|init|] == init;
          assert r.disk.copies == d.copies + CopiesOf(targetdir, outputdir, entries[..|init|]);
        }
      }
    }
  }

  /** The copies of entries none of which has relative path `key` never land on `outputdir + key`. */
  lemma CopiesAvoid(targetdir: string, outputdir: string, entries: seq<FindData>, key: string)
    requires key !in Keys(entries)
    ensures forall i :: 0 <= i < |entries| ==> CopiesOf(targetdir, outputdir, entries)[i].to != outputdir + key
  {
    forall i | 0 <= i < |entries| ensures CopiesOf(targetdir, outputdir, entries)[i].to != outputdir + key {
      var e := entries[i];
      assert e in entries;
      assert (outputdir + e.relativePath)[|outputdir|..] == e.relativePath;
      assert (outputdir + key)[|outputdir|..] == key;
    }
  }

  /**
   * Applying copyProcedure to a list only writes to the output paths of its
   * entries: no copy it makes lands on the output path of a relative path
   * that is not among them.
   */
  lemma CopyAllOnlyEntries(d: Disk, host: Host, targetdir: string, outputdir: string, entries: seq<FindData>, key: string)
    requires key !in Keys(entries)
    ensures var r := CopyAll(d, host, targetdir, outputdir, entries);
      |d.copies| <= |r.disk.copies| &&
      forall i :: |d.copies| <= i < |r.disk.copies| ==> r.disk.copies[i].to != outputdir + key
  {
    var r := CopyAll(d, host, targetdir, outputdir, entries);
    CopyAllEffect(d, host, targetdir, outputdir, entries);
    var k: nat := |entries|;
    if r.fault.Some? {
      k :| 0 <= k < |entries| && r.disk.copies == d.copies + CopiesOf(targetdir, outputdir, entries[..k]);
    } else {
      assert entries[..k] == entries;
    }
    KeysOfPrefix(entries, k);
    CopiesAvoid(targetdir, outputdir, entries[..k], key);
    AppendedAvoid(d.copies, CopiesOf(targetdir, outputdir, entries[..k]), outputdir + key);
  }

  /** A prefix of a list has no key the list lacks. */
  lemma KeysOfPrefix(entries: seq<FindData>, k: nat)
    requires k <= |entries|
    ensures Keys(entries[..k]) <= Keys(entries)
  {
    forall e | e in entries[..k] ensures e in entries {
    }
  }

  /** Appending copies none of which lands on `p` adds no copy onto `p`. */
  lemma AppendedAvoid(before: seq<Copy>, made: seq<Copy>, p: string)
    requires forall i :: 0 <= i < |made| ==> made[i].to != p
    ensures forall i :: |before| <= i < |before + made| ==> (before + made)[i].to != p
  {
    forall i | |before| <= i < |before + made| ensures (before + made)[i].to != p {
      assert (before + made)[i] == made[i - |before|];
    }
  }
}
