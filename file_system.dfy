/**
 * The host file system the run writes to, as far as the diff engine touches
 * it: PathFileExistsA, CreateDirectoryA, CopyFileA and an ofstream opened for
 * writing the manifest. Which of these calls the host refuses is given up
 * front by a `Host`, so every run is determined by its inputs.
 */
module FileSystem {

  /** A file copy, from a path under the target tree to a path under the output tree. */
  datatype Copy = Copy(from: string, to: string)

  /** The calls the host refuses: directories it cannot create, copies that fail, files it cannot open. */
  datatype Host = Host(cannotCreate: set<string>, cannotCopy: set<Copy>, cannotOpen: set<string>)

  /**
   * What the run can observe of, and has done to, the output side:
   * the paths that exist, the directories created and the files copied in
   * order, and the text files written, as their lines.
   */
  datatype Disk = Disk(present: set<string>, created: seq<string>, copies: seq<Copy>, files: map<string, seq<string>>)

  /** A failure that aborts the run. */
  datatype Fault =
    | CreateDirectoryFailed(dir: string)
    | CopyFailed(from: string, to: string)
    | OpenFailed(path: string)

  // ----- The effect of each successful call -----

  function AfterCreate(d: Disk, dir: string): (r: Disk)
    ensures r.present == d.present + {dir} && r.created == d.created + [dir]
    ensures r.copies == d.copies && r.files == d.files
  {
    d.(present := d.present + {dir}, created := d.created + [dir])
  }

  /** CopyFileA with bFailIfExists = FALSE: the destination is created or overwritten. */
  function AfterCopy(d: Disk, c: Copy): (r: Disk)
    ensures r.present == d.present + {c.to} && r.copies == d.copies + [c]
    ensures r.created == d.created && r.files == d.files
  {
    d.(present := d.present + {c.to}, copies := d.copies + [c])
  }

  /** std::ofstream::out truncates: the opened file is empty. */
  function AfterOpen(d: Disk, path: string): (r: Disk)
    ensures r.present == d.present + {path} && r.files == d.files[path := []]
    ensures r.created == d.created && r.copies == d.copies
  {
    d.(present := d.present + {path}, files := d.files[path := []])
  }

  function AfterWriteLine(d: Disk, path: string, line: string): (r: Disk)
    requires path in d.files
    ensures r.files == d.files[path := d.files[path] + [line]]
    ensures r.present == d.present && r.created == d.created && r.copies == d.copies
  {
    d.(files := d.files[path := d.files[path] + [line]])
  }

  /** The output side of the host, changed in place by each call. */
  class FileSystem {
    var present: set<string>
    var created: seq<string>
    var copies: seq<Copy>
    var files: map<string, seq<string>>
    const host: Host

    function State(): Disk
      reads this
    {
      Disk(present, created, copies, files)
    }

    constructor (initial: Disk, host: Host)
      ensures State() == initial && this.host == host
    {
      present, created, copies, files := initial.present, initial.created, initial.copies, initial.files;
      this.host := host;
    }

    /** PathFileExistsA. */
    function PathFileExists(path: string): (b: bool)
      reads this
      ensures b <==> path in State().present
    {
      path in present
    }

    /** CreateDirectoryA: fails for a path that exists or that the host refuses. */
    method CreateDirectory(dir: string) returns (ok: bool)
      modifies this
      ensures ok <==> dir !in old(present) && dir !in host.cannotCreate
      ensures State() == if ok then AfterCreate(old(State()), dir) else old(State())
    {
      ok := dir !in present && dir !in host.cannotCreate;
      if ok {
        present, created := present + {dir}, created + [dir];
      }
    }

    /** CopyFileA(from, to, FALSE). */
    method CopyFile(from: string, to: string) returns (ok: bool)
      modifies this
      ensures ok <==> Copy(from, to) !in host.cannotCopy
      ensures State() == if ok then AfterCopy(old(State()), Copy(from, to)) else old(State())
    {
      ok := Copy(from, to) !in host.cannotCopy;
      if ok {
        present, copies := present + {to}, copies + [Copy(from, to)];
      }
    }

    /** Constructing an std::ofstream for output; `ok` is the stream's state. */
    method OpenForWrite(path: string) returns (ok: bool)
      modifies this
      ensures ok <==> path !in host.cannotOpen
      ensures State() == if ok then AfterOpen(old(State()), path) else old(State())
    {
      ok := path !in host.cannotOpen;
      if ok {
        present, files := present + {path}, files[path := []];
      }
    }

    /** `fout << line << std::endl` on an open stream. */
    method WriteLine(path: string, line: string)
      requires path in files
      modifies this
      ensures State() == AfterWriteLine(old(State()), path, line)
    {
      files := files[path := files[path] + [line]];
    }
  }
}
