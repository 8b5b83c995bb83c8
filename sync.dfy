/**
 * main: parse the command line, walk and sort both trees, find the modified
 * and the added entries and copy them from the target tree into the output
 * tree, then write the deleted entries to a manifest. Any fault ends the run
 * with -1 at once; only a run that reaches the end returns 0.
 */
module Sync {
  import opened Wrappers
  import opened Strings
  import opened Entries
  import opened Enumeration
  import opened SetAlgebra
  import opened Classification
  import opened FileSystem
  import opened Copying
  import opened Arguments

  /** The manifest is this file name appended to the output directory. */
  const ManifestName: string := "\\deletedfile.txt"

  /** The lists a run computes from the two trees, before it touches the output. */
  datatype Plan = Plan(
    source: seq<FindData>,        // the sorted source inventory
    target: seq<FindData>,        // the sorted target inventory
    intersection: seq<FindData>,  // target entries whose relative path is in the source
    modified: seq<FindData>,      // files of the intersection whose contents differ
    added: seq<FindData>,         // target entries whose relative path is not in the source
    deleted: seq<FindData>)       // source entries whose relative path is not in the target

  /** The inventory of a tree walked from its root and sorted by relative path. */
  function Inventory(root: string, tree: Node): seq<FindData> {
    assert root[..|root|] == root;
    Sort(Walk(root, root, tree))
  }

  function MakePlan(dirs: Dirs, sourceTree: Node, targetTree: Node, md5: string -> string): Plan {
    var source := Inventory(dirs.source, sourceTree);
    var target := Inventory(dirs.target, targetTree);
    var intersection := Select(target, Keys(source), true);
    Plan(source, target, intersection,
         Modified(intersection, dirs.target, dirs.source, md5),
         Select(target, Keys(source), false),
         Select(source, Keys(target), false))
  }

  /** The manifest's lines: one per entry, written with operator<<. */
  function ManifestLines(entries: seq<FindData>): (r: seq<string>)
    ensures |r| == |entries|
  {
    if entries == [] then [] else ManifestLines(entries[..|entries| - 1]) + [Line(entries[|entries| - 1])]
  }

  /** A file after `lines` are appended to it. */
  function AfterWriteLines(d: Disk, path: string, lines: seq<string>): Disk
    requires path in d.files
  {
    d.(files := d.files[path := d.files[path] + lines])
  }

  /** The exit code and the output side when the run ends. */
  datatype RunResult = RunResult(code: int, disk: Disk)

  /**
   * The phases that touch the output, in their fixed order: copy the
   * modified entries, copy the added entries, open the manifest and write
   * the deleted entries to it. The first fault ends the run with -1.
   */
  function Execute(dirs: Dirs, p: Plan, d: Disk, host: Host): RunResult {
    var r1 := CopyAll(d, host, dirs.target, dirs.output, p.modified);
    if r1.fault.Some? then RunResult(-1, r1.disk)
    else
      var r2 := CopyAll(r1.disk, host, dirs.target, dirs.output, p.added);
      if r2.fault.Some? then RunResult(-1, r2.disk)
      else
        var manifest := dirs.output + ManifestName;
        if manifest in host.cannotOpen then RunResult(-1, r2.disk)
        else RunResult(0, AfterWriteLines(AfterOpen(r2.disk, manifest), manifest, ManifestLines(p.deleted)))
  }

  /** A whole run: the command line, then the plan, then its execution. */
  function RunSpec(args: seq<string>, sourceTree: Node, targetTree: Node, md5: string -> string, d: Disk, host: Host): RunResult {
    match Parse(args)
    case Err(_) => RunResult(-1, d)
    case Ok(dirs) => Execute(dirs, MakePlan(dirs, sourceTree, targetTree, md5), d, host)
  }

  // ----- The imperative program -----

  /** The for_each that writes one line per deleted entry to the open manifest. */
  method WriteManifest(fs: FileSystem, path: string, entries: seq<FindData>)
    requires path in fs.files
    modifies fs
    ensures fs.State() == AfterWriteLines(old(fs.State()), path, ManifestLines(entries))
  {
    ghost var d0 := fs.State();
    assert d0.files[path] + [] == d0.files[path];
    assert d0.files[path := d0.files[path]] == d0.files;
    for i := 0 to |entries|
      invariant path in fs.files
      invariant fs.State() == AfterWriteLines(d0, path, ManifestLines(entries[..i]))
    {
      assert entries[..i + 1][..i] == entries[..i];
      var fd := entries[i];
      ghost var before := ManifestLines(entries[..i]);
      fs.WriteLine(path, (if fd.isDirectory then DirectoryTag else FileTag) + fd.relativePath);
      assert d0.files[path] + before + [Line(fd)] == d0.files[path] + (before + [Line(fd)]);
    }
    assert entries[..|entries|] == entries;
  }

  /** Walks a tree from its root into a fresh list, then sorts it. */
  method ListTree(root: string, tree: Node) returns (inventory: seq<FindData>)
    ensures inventory == Inventory(root, tree)
  {
    var found := new EntryList();
    assert root[..|root|] == root;
    FindFile(root, root, tree, found);
    assert found.items == Walk(root, root, tree);
    inventory := Sort(found.items);
  }

  /** The sorted inventory of a tree holds no relative path twice, in increasing order. */
  lemma InventoryIncreasing(root: string, tree: Node)
    requires WellFormed(tree)
    ensures Increasing(Inventory(root, tree))
  {
    WalkFromRoot(root, tree);
    SortIncreasing(Walk(root, root, tree));
  }

  /** main, from the command line on; the trees stand for what the two directories hold. */
  method Run(args: seq<string>, sourceTree: Node, targetTree: Node, md5: string -> string, fs: FileSystem) returns (code: int)
    requires WellFormed(sourceTree) && WellFormed(targetTree)
    modifies fs
    ensures RunResult(code, fs.State()) == RunSpec(args, sourceTree, targetTree, md5, old(fs.State()), fs.host)
  {
    var parsed := ParseArguments(args);
    if parsed.Err? {
      return -1;
    }
    var dirs := parsed.value;
    ghost var p := MakePlan(dirs, sourceTree, targetTree, md5);

    var source := ListTree(dirs.source, sourceTree);
    var target := ListTree(dirs.target, targetTree);
    InventoryIncreasing(dirs.source, sourceTree);
    InventoryIncreasing(dirs.target, targetTree);

    var intersection := SetIntersection(target, source);
    var modified := FindModified(intersection, dirs.target, dirs.source, md5);
    var fault := CopyEach(fs, dirs.target, dirs.output, modified);
    if fault.Some? {
      return -1;
    }

    var added := SetDifference(target, source);
    fault := CopyEach(fs, dirs.target, dirs.output, added);
    if fault.Some? {
      return -1;
    }

    var deleted := SetDifference(source, target);
    var manifest := dirs.output + ManifestName;
    var ok := fs.OpenForWrite(manifest);
    if !ok {
      return -1;
    }
    WriteManifest(fs, manifest, deleted);
    return 0;
  }

  // ----- What a run does -----

  /** Each manifest line reads back as its entry's kind and relative path. */
  lemma {:induction false} ManifestRoundTrip(entries: seq<FindData>)
    ensures forall i :: 0 <= i < |entries| ==>
      ParseLine(ManifestLines(entries)[i]) == Some((entries[i].isDirectory, entries[i].relativePath))
  {
    if entries != [] {
      var init := entries[..|entries| - 1];
      ManifestRoundTrip(init);
      LineRoundTrip(entries[|entries| - 1]);
      forall i | 0 <= i < |entries|
        ensures ParseLine(ManifestLines(entries)[i]) == Some((entries[i].isDirectory, entries[i].relativePath))
      {
        if i < |init| {
          assert ManifestLines(entries)[i] == ManifestLines(init)[i] && entries[i] == init[i];
        }
      }
    }
  }

  /**
   * Both inventories, and every list computed from them, are sorted by
   * relative path with no relative path twice.
   */
  lemma PlanSorted(dirs: Dirs, sourceTree: Node, targetTree: Node, md5: string -> string)
    requires WellFormed(sourceTree) && WellFormed(targetTree)
    ensures var p := MakePlan(dirs, sourceTree, targetTree, md5);
      && Increasing(p.source) && Increasing(p.target) && Increasing(p.intersection)
      && Increasing(p.modified) && Increasing(p.added) && Increasing(p.deleted)
  {
    var p := MakePlan(dirs, sourceTree, targetTree, md5);
    InventoryIncreasing(dirs.source, sourceTree);
    InventoryIncreasing(dirs.target, targetTree);
    SelectIncreasing(p.target, Keys(p.source), true);
    SelectIncreasing(p.target, Keys(p.source), false);
    SelectIncreasing(p.source, Keys(p.target), false);
    ModifiedIncreasing(p.intersection, dirs.target, dirs.source, md5);
  }

  /** How the plan's lists are related by relative path. */
  predicate KeysConsistent(p: Plan) {
    && Keys(p.intersection) == Keys(p.target) * Keys(p.source)
    && Keys(p.added) == Keys(p.target) - Keys(p.source)
    && Keys(p.deleted) == Keys(p.source) - Keys(p.target)
    && Keys(p.modified) <= Keys(p.intersection)
  }

  /**
   * The intersection and the added entries split the target inventory by
   * whether the relative path is in the source; the deleted entries are the
   * source entries whose relative path is not in the target; the modified
   * entries are the intersection's files whose hashes differ.
   */
  lemma PlanPartition(dirs: Dirs, sourceTree: Node, targetTree: Node, md5: string -> string)
    ensures var p := MakePlan(dirs, sourceTree, targetTree, md5);
      && multiset(p.intersection) + multiset(p.added) == multiset(p.target)
      && KeysConsistent(p)
      && (forall e :: e in p.modified <==> e in p.intersection && IsModified(e, dirs.target, dirs.source, md5))
  {
    var p := MakePlan(dirs, sourceTree, targetTree, md5);
    SelectPartition(p.target, Keys(p.source));
    SelectKeys(p.target, Keys(p.source));
    SelectKeys(p.source, Keys(p.target));
    ModifiedMembers(p.intersection, dirs.target, dirs.source, md5);
    forall k | k in Keys(p.modified) ensures k in Keys(p.intersection) {
      var e :| e in p.modified && e.relativePath == k;
    }
  }

  /** A command line that is rejected ends the run with -1 before anything is touched. */
  lemma RejectedCommandLine(args: seq<string>, sourceTree: Node, targetTree: Node, md5: string -> string, d: Disk, host: Host)
    requires Parse(args).Err?
    ensures RunSpec(args, sourceTree, targetTree, md5, d, host) == RunResult(-1, d)
  {
  }

  /**
   * When copying a modified file fails, the run ends there: no added entry
   * is copied and the manifest is never opened.
   */
  lemma CopyFailureSkipsRest(dirs: Dirs, p: Plan, d: Disk, host: Host)
    requires CopyAll(d, host, dirs.target, dirs.output, p.modified).fault.Some?
    ensures Execute(dirs, p, d, host) == RunResult(-1, CopyAll(d, host, dirs.target, dirs.output, p.modified).disk)
  {
  }

  /**
   * A run that fails has not opened or written the manifest: the text files
   * are as they were. Copies made before the fault are kept.
   */
  lemma FailedRunWritesNoManifest(dirs: Dirs, p: Plan, d: Disk, host: Host)
    ensures var r := Execute(dirs, p, d, host);
      (r.code == 0 || r.code == -1) && (r.code == -1 ==> r.disk.files == d.files)
  {
    var r1 := CopyAll(d, host, dirs.target, dirs.output, p.modified);
    CopyAllEffect(d, host, dirs.target, dirs.output, p.modified);
    CopyAllEffect(r1.disk, host, dirs.target, dirs.output, p.added);
  }

  /**
   * A run that returns 0 has copied every modified entry and then every added
   * entry, in order, and the manifest holds one line per deleted entry.
   */
  lemma SuccessfulRun(dirs: Dirs, p: Plan, d: Disk, host: Host)
    requires Execute(dirs, p, d, host).code == 0
    ensures var r := Execute(dirs, p, d, host);
      && r.disk.copies == d.copies + CopiesOf(dirs.target, dirs.output, p.modified) + CopiesOf(dirs.target, dirs.output, p.added)
      && r.disk.files == d.files[dirs.output + ManifestName := ManifestLines(p.deleted)]
  {
    var r := Execute(dirs, p, d, host);
    var r1 := CopyAll(d, host, dirs.target, dirs.output, p.modified);
    var r2 := CopyAll(r1.disk, host, dirs.target, dirs.output, p.added);
    var manifest := dirs.output + ManifestName;
    assert r1.fault.None? && r2.fault.None? && manifest !in host.cannotOpen;
    CopyAllEffect(d, host, dirs.target, dirs.output, p.modified);
    CopyAllEffect(r1.disk, host, dirs.target, dirs.output, p.added);
    var lines := ManifestLines(p.deleted);
    assert r.disk == AfterWriteLines(AfterOpen(r2.disk, manifest), manifest, lines);
    assert [] + lines == lines;
  }

  /** The run only copies onto output paths of relative paths in `p.modified` or `p.added`. */
  lemma ExecuteCopiesOnlyPlanned(dirs: Dirs, p: Plan, d: Disk, host: Host, key: string)
    requires key !in Keys(p.modified) && key !in Keys(p.added)
    ensures var r := Execute(dirs, p, d, host);
      forall i :: |d.copies| <= i < |r.disk.copies| ==> r.disk.copies[i].to != dirs.output + key
  {
    var r1 := CopyAll(d, host, dirs.target, dirs.output, p.modified);
    CopyAllOnlyEntries(d, host, dirs.target, dirs.output, p.modified, key);
    CopyAllOnlyEntries(r1.disk, host, dirs.target, dirs.output, p.added, key);
    CopyAllEffect(r1.disk, host, dirs.target, dirs.output, p.added);
  }

  /** A deleted entry is never copied: no copy the run makes lands on its output path. */
  lemma DeletedNeverCopied(dirs: Dirs, p: Plan, d: Disk, host: Host)
    requires KeysConsistent(p)
    ensures var r := Execute(dirs, p, d, host);
      forall e, i :: e in p.deleted && |d.copies| <= i < |r.disk.copies| ==> r.disk.copies[i].to != dirs.output + e.relativePath
  {
    forall e | e in p.deleted
      ensures forall i :: |d.copies| <= i < |Execute(dirs, p, d, host).disk.copies| ==>
        Execute(dirs, p, d, host).disk.copies[i].to != dirs.output + e.relativePath
    {
      assert e.relativePath in Keys(p.deleted);
      ExecuteCopiesOnlyPlanned(dirs, p, d, host, e.relativePath);
    }
  }

  /** So in a whole run, whatever the trees and the host, no deleted entry is copied. */
  lemma RunNeverCopiesDeleted(args: seq<string>, sourceTree: Node, targetTree: Node, md5: string -> string, d: Disk, host: Host)
    requires Parse(args).Ok?
    ensures var dirs := Parse(args).value;
      var p := MakePlan(dirs, sourceTree, targetTree, md5);
      var r := RunSpec(args, sourceTree, targetTree, md5, d, host);
      forall e, i :: e in p.deleted && |d.copies| <= i < |r.disk.copies| ==> r.disk.copies[i].to != dirs.output + e.relativePath
  {
    var dirs := Parse(args).value;
    PlanPartition(dirs, sourceTree, targetTree, md5);
    DeletedNeverCopied(dirs, MakePlan(dirs, sourceTree, targetTree, md5), d, host);
  }
}
