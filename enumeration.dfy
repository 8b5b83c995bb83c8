/**
 * findFile: the depth-first walk of a directory tree. The host's directory
 * listing (FindFirstFileA / FindNextFileA) is replaced by an abstract tree
 * whose directories list their children in the order the host reports them,
 * including the "." and ".." pseudo-entries, and which may refuse to be
 * listed.
 */
module Enumeration {
  import opened Strings
  import opened Entries

  /**
   * A node of the host filesystem as the listing primitives see it. A
   * directory that cannot be listed (`readable == false`) is one for which
   * FindFirstFileA fails; its `children` are never looked at.
   */
  datatype Node =
    | File(name: string)
    | Directory(name: string, readable: bool, children: seq<Node>)

  /** The self and parent pseudo-entries that every listing reports. */
  predicate IsDot(name: string) {
    name == "." || name == ".."
  }

  /** A name a listing can report: not empty and without a path separator. */
  predicate ValidName(name: string) {
    name != [] && Backslash !in name
  }

  /** Every listing reports valid names, each at most once. */
  predicate WellFormed(n: Node)
    decreases n
  {
    n.Directory? ==>
      (forall i :: 0 <= i < |n.children| ==> ValidName(n.children[i].name) && WellFormed(n.children[i])) &&
      (forall i, j :: 0 <= i < j < |n.children| ==> n.children[i].name != n.children[j].name)
  }

  /** FindFirstFileA on `directory\*` succeeds: the node is a listable directory. */
  predicate Opens(n: Node) {
    n.Directory? && n.readable
  }

  /** The part of `directory` below the walk root. */
  function Rel(baseDir: string, directory: string): (r: string)
    requires IsPrefix(baseDir, directory)
    ensures directory == baseDir + r
  {
    directory[|baseDir|..]
  }

  /** Extending a path that starts with the walk root keeps the root as its prefix. */
  lemma PrefixExtend(baseDir: string, directory: string, tail: string)
    requires IsPrefix(baseDir, directory)
    ensures IsPrefix(baseDir, directory + tail)
    ensures Find(directory + tail, baseDir).Some?
    ensures Rel(baseDir, directory + tail) == Rel(baseDir, directory) + tail
  {
    assert (directory + tail)[..|baseDir|] == baseDir;
    FindPrefix(baseDir, directory + tail);
  }

  /** What findFile(baseDir, directory, result) appends for the node listed at `directory`. */
  function Walk(baseDir: string, directory: string, n: Node): seq<FindData>
    requires IsPrefix(baseDir, directory)
    decreases n, 1
  {
    if Opens(n) then WalkChildren(baseDir, directory, n, |n.children|) else []
  }

  /** What the listing loop appends for the first `k` children the listing reports. */
  function WalkChildren(baseDir: string, directory: string, n: Node, k: nat): seq<FindData>
    requires IsPrefix(baseDir, directory)
    requires n.Directory? && k <= |n.children|
    decreases n, 0, k
  {
    if k == 0 then []
    else WalkChildren(baseDir, directory, n, k - 1) + Visit(baseDir, directory, n.children[k - 1])
  }

  /**
   * One turn of the listing loop: a pseudo-entry adds nothing, a directory
   * adds its own entry and then everything below it, a file adds its entry.
   */
  function Visit(baseDir: string, directory: string, c: Node): seq<FindData>
    requires IsPrefix(baseDir, directory)
    decreases c, 2
  {
    if IsDot(c.name) then []
    else
      var e := ChildData(baseDir, directory, c.name, c.Directory?);
      if c.Directory? then [e] + Walk(baseDir, e.path, c) else [e]
  }

  /** The entry findFile makes for the child `name` of `directory`. */
  function ChildData(baseDir: string, directory: string, name: string, isDirectory: bool): (fd: FindData)
    requires IsPrefix(baseDir, directory)
    ensures fd.path == directory + [Backslash] + name && IsPrefix(baseDir, fd.path)
  {
    PrefixExtend(baseDir, directory, [Backslash] + name);
    assert directory + [Backslash] + name == directory + ([Backslash] + name);
    NewFindData(baseDir, directory + [Backslash] + name, isDirectory)
  }

  /** The list that findFile appends to, updated in place. */
  class EntryList {
    var items: seq<FindData>

    constructor ()
      ensures items == []
    {
      items := [];
    }

    /** std::list::push_back. */
    method PushBack(fd: FindData)
      modifies this
      ensures items == old(items) + [fd]
    {
      items := items + [fd];
    }
  }

  /**
   * findFile: lists `directory` (whose contents are `n`) and appends, for
   * every child other than "." and "..", its entry and, for a directory, the
   * entries below it. It only appends: what `result` held before is kept, in
   * order; a node that cannot be listed appends nothing.
   */
  method FindFile(baseDir: string, directory: string, n: Node, result: EntryList)
    requires IsPrefix(baseDir, directory)
    modifies result
    decreases n
    ensures result.items == old(result.items) + Walk(baseDir, directory, n)
    ensures !Opens(n) ==> result.items == old(result.items)
  {
    if Opens(n) {
      var i := 0;
      while i < |n.children|
        invariant 0 <= i <= |n.children|
        invariant result.items == old(result.items) + WalkChildren(baseDir, directory, n, i)
      {
        var fd := n.children[i];
        if !IsDot(fd.name) {
          var p := directory + [Backslash] + fd.name;
          PrefixExtend(baseDir, directory, [Backslash] + fd.name);
          assert directory + [Backslash] + fd.name == directory + ([Backslash] + fd.name);
          if fd.Directory? {
            result.PushBack(NewFindData(baseDir, p, true));
            FindFile(baseDir, p, fd, result);
          } else {
            result.PushBack(NewFindData(baseDir, p, false));
          }
        }
        i := i + 1;
      }
    }
  }

  // ----- What the walk produces -----

  /** `key` lies below the directory whose relative path is `r`. */
  predicate Inside(key: string, r: string) {
    IsPrefix(r + [Backslash], key)
  }

  /** The name of the child of `r` under which `key` lies. */
  function Head(key: string, r: string): string
    requires Inside(key, r)
  {
    Component(key[|r| + 1..])
  }

  /** The names of the first `k` children a listing reports. */
  function Names(n: Node, k: nat): set<string>
    requires n.Directory? && k <= |n.children|
  {
    set i | 0 <= i < k :: n.children[i].name
  }

  /**
   * An entry of a walk from `baseDir` whose recorded path is the walk root
   * followed by its relative path, and whose last component is not a
   * pseudo-entry.
   */
  predicate Rooted(baseDir: string, e: FindData) {
    e.baseDir == baseDir && e.path == baseDir + e.relativePath && !IsDot(LastComponent(e.relativePath))
  }

  /** The relative path of the entry made for the child `name` of `directory`. */
  lemma ChildRelativePath(baseDir: string, directory: string, name: string, isDirectory: bool)
    requires IsPrefix(baseDir, directory)
    ensures var e := ChildData(baseDir, directory, name, isDirectory);
      e.relativePath == Rel(baseDir, directory) + [Backslash] + name == Rel(baseDir, e.path) &&
      e.baseDir == baseDir && e.path == baseDir + e.relativePath
  {
    var rp := Rel(baseDir, directory) + [Backslash] + name;
    var e := ChildData(baseDir, directory, name, isDirectory);
    assert e.path == baseDir + rp;
    RelativePathOfJoin(baseDir, rp, isDirectory);
  }

  /** The path of a child, relative to its parent's relative path `r`. */
  lemma {:induction false} JoinedName(r: string, name: string)
    requires ValidName(name)
    ensures Inside(r + [Backslash] + name, r)
    ensures Head(r + [Backslash] + name, r) == name
    ensures LastComponent(r + [Backslash] + name) == name
  {
    var rp := r + [Backslash] + name;
    LastComponentOfJoin(r, name);
    assert rp[|r| + 1..] == name + [];
    ComponentOfName(name, []);
    assert rp[..|r| + 1] == r + [Backslash];
  }

  /** The entry made for a child named `name` of `directory`. */
  lemma ChildEntry(baseDir: string, directory: string, name: string, isDirectory: bool)
    requires IsPrefix(baseDir, directory) && ValidName(name) && !IsDot(name)
    ensures var e := ChildData(baseDir, directory, name, isDirectory);
      var r := Rel(baseDir, directory);
      && Rel(baseDir, e.path) == e.relativePath == r + [Backslash] + name
      && Rooted(baseDir, e) && Inside(e.relativePath, r) && Head(e.relativePath, r) == name
  {
    ChildRelativePath(baseDir, directory, name, isDirectory);
    JoinedName(Rel(baseDir, directory), name);
  }

  /** A key below the child `name` of `r` lies under `r`, under that name. */
  lemma {:induction false} BelowChild(r: string, name: string, key: string)
    requires ValidName(name) && Inside(key, r + [Backslash] + name)
    ensures Inside(key, r) && Head(key, r) == name
    ensures key != r + [Backslash] + name
  {
    var rp := r + [Backslash] + name;
    assert key[..|rp| + 1] == rp + [Backslash];
    assert key[..|r| + 1] == (rp + [Backslash])[..|r| + 1] == r + [Backslash];
    var tail := key[|r| + 1 + |name|..];
    assert key[|r| + 1..] == name + tail;
    assert tail[0] == key[|rp|] == Backslash;
    ComponentOfName(name, tail);
  }

  /** Every entry of `w` is rooted at `baseDir` and lies below `r`. */
  predicate AllBelow(w: seq<FindData>, baseDir: string, r: string) {
    forall e | e in w :: Rooted(baseDir, e) && Inside(e.relativePath, r)
  }

  /** Every entry of `w` is rooted at `baseDir` and lies below `r` under one of `names`. */
  predicate AllUnder(w: seq<FindData>, baseDir: string, r: string, names: set<string>) {
    forall e | e in w :: Rooted(baseDir, e) && Inside(e.relativePath, r) && Head(e.relativePath, r) in names
  }

  /** Every entry comes before every entry that lies below it: the walk is pre-order. */
  predicate PreOrder(w: seq<FindData>) {
    forall i, j :: 0 <= i < |w| && 0 <= j < |w| && Inside(w[j].relativePath, w[i].relativePath) ==> i < j
  }

  /** A key below `x`, itself below `r`, lies below `r` under the same name as `x`. */
  lemma InsideTransitive(y: string, x: string, r: string)
    requires Inside(x, r) && Inside(y, x)
    ensures Inside(y, r) && Head(y, r) == Head(x, r)
  {
    assert y[..|x|] == x by {
      assert y[..|x| + 1] == x + [Backslash];
    }
    assert y[..|r| + 1] == x[..|r| + 1];
    assert y[|r| + 1..] == x[|r| + 1..] + y[|x|..];
    ComponentExtend(x[|r| + 1..], y[|x|..]);
  }

  /** An entry followed by entries below it is in pre-order when those are. */
  lemma PreOrderCons(e0: FindData, w: seq<FindData>)
    requires PreOrder(w)
    requires forall e | e in w :: Inside(e.relativePath, e0.relativePath)
    ensures PreOrder([e0] + w)
  {
    var s := [e0] + w;
    forall i, j | 0 <= i < |s| && 0 <= j < |s| && Inside(s[j].relativePath, s[i].relativePath)
      ensures i < j
    {
      if i > 0 {
        assert s[i] == w[i - 1];
        if j > 0 {
          assert s[j] == w[j - 1];
        }
      }
    }
  }

  /** Two pre-order blocks under disjoint sets of names join into a pre-order block. */
  lemma PreOrderJoin(s: seq<FindData>, t: seq<FindData>, baseDir: string, r: string, a: set<string>, b: set<string>)
    requires AllUnder(s, baseDir, r, a) && AllUnder(t, baseDir, r, b) && a !! b
    requires PreOrder(s) && PreOrder(t)
    ensures PreOrder(s + t)
  {
    var u := s + t;
    forall i, j | 0 <= i < |u| && 0 <= j < |u| && Inside(u[j].relativePath, u[i].relativePath)
      ensures i < j
    {
      if j < |s| && i < |s| {
        assert u[i] == s[i] && u[j] == s[j];
      } else if |s| <= i && |s| <= j {
        assert u[i] == t[i - |s|] && u[j] == t[j - |s|];
      } else if j < |s| {
        assert u[i] in t && u[j] in s;
        InsideTransitive(u[j].relativePath, u[i].relativePath, r);
        assert false;
      }
    }
  }

  /** Entries below the child `name` of `r` lie under `name`, and none is that child itself. */
  lemma BelowChildAll(w: seq<FindData>, baseDir: string, r: string, name: string)
    requires ValidName(name) && AllBelow(w, baseDir, r + [Backslash] + name)
    ensures AllUnder(w, baseDir, r, {name})
    ensures forall e | e in w :: e.relativePath != r + [Backslash] + name
  {
    forall e | e in w
      ensures Inside(e.relativePath, r) && Head(e.relativePath, r) == name
      ensures e.relativePath != r + [Backslash] + name
    {
      BelowChild(r, name, e.relativePath);
    }
  }

  /** Blocks under disjoint sets of names join into one block with unique keys. */
  lemma JoinBlocks(s: seq<FindData>, t: seq<FindData>, baseDir: string, r: string, a: set<string>, b: set<string>)
    requires AllUnder(s, baseDir, r, a) && AllUnder(t, baseDir, r, b) && a !! b
    requires UniqueKeys(s) && UniqueKeys(t)
    ensures AllUnder(s + t, baseDir, r, a + b)
    ensures UniqueKeys(s + t)
  {
    forall e, f | e in s && f in t
      ensures e.relativePath != f.relativePath
    {
      assert Head(e.relativePath, r) in a && Head(f.relativePath, r) in b;
    }
    UniqueKeysConcat(s, t);
  }

  /** Everything one child contributes lies under that child's name. */
  lemma {:induction false} VisitShape(baseDir: string, directory: string, c: Node)
    requires IsPrefix(baseDir, directory)
    requires ValidName(c.name) && WellFormed(c)
    decreases c, 4
    ensures AllUnder(Visit(baseDir, directory, c), baseDir, Rel(baseDir, directory), {c.name})
    ensures UniqueKeys(Visit(baseDir, directory, c))
    ensures PreOrder(Visit(baseDir, directory, c))
  {
    if !IsDot(c.name) {
      var r := Rel(baseDir, directory);
      var e0 := ChildData(baseDir, directory, c.name, c.Directory?);
      var v := Visit(baseDir, directory, c);
      if c.Directory? {
        assert v == [e0] + Walk(baseDir, e0.path, c);
        SubdirectoryShape(baseDir, directory, c);
      } else {
        assert v == [e0];
        assert AllUnder(v, baseDir, r, {c.name}) by {
          ChildEntry(baseDir, directory, c.name, false);
        }
        PreOrderCons(e0, []);
      }
    }
  }

  /** The entries below a subdirectory are under its name, and strictly inside its own entry. */
  lemma {:induction false} SubdirectoryContents(baseDir: string, directory: string, c: Node)
    requires IsPrefix(baseDir, directory)
    requires ValidName(c.name) && !IsDot(c.name) && c.Directory? && WellFormed(c)
    decreases c, 2
    ensures var e0 := ChildData(baseDir, directory, c.name, true);
      var w := Walk(baseDir, e0.path, c);
      && AllUnder(w, baseDir, Rel(baseDir, directory), {c.name}) && UniqueKeys(w) && PreOrder(w)
      && forall e | e in w :: e.relativePath != e0.relativePath && Inside(e.relativePath, e0.relativePath)
  {
    var e0 := ChildData(baseDir, directory, c.name, true);
    ChildEntry(baseDir, directory, c.name, true);
    WalkShape(baseDir, e0.path, c);
    BelowChildAll(Walk(baseDir, e0.path, c), baseDir, Rel(baseDir, directory), c.name);
  }

  /** A subdirectory contributes its own entry, then entries below it: all under its name. */
  lemma {:induction false} SubdirectoryShape(baseDir: string, directory: string, c: Node)
    requires IsPrefix(baseDir, directory)
    requires ValidName(c.name) && !IsDot(c.name) && c.Directory? && WellFormed(c)
    decreases c, 3
    ensures var e0 := ChildData(baseDir, directory, c.name, true);
      var s := [e0] + Walk(baseDir, e0.path, c);
      AllUnder(s, baseDir, Rel(baseDir, directory), {c.name}) && UniqueKeys(s) && PreOrder(s)
  {
    var r := Rel(baseDir, directory);
    var e0 := ChildData(baseDir, directory, c.name, true);
    assert AllUnder([e0], baseDir, r, {c.name}) by {
      ChildEntry(baseDir, directory, c.name, true);
    }
    var w := Walk(baseDir, e0.path, c);
    SubdirectoryContents(baseDir, directory, c);
    UnderConcat([e0], w, baseDir, r, {c.name});
    UniqueKeysConcat([e0], w);
    PreOrderCons(e0, w);
  }

  lemma UnderConcat(s: seq<FindData>, t: seq<FindData>, baseDir: string, r: string, names: set<string>)
    requires AllUnder(s, baseDir, r, names) && AllUnder(t, baseDir, r, names)
    ensures AllUnder(s + t, baseDir, r, names)
  {
  }

  /** A walk yields rooted entries below `directory`, with no relative path twice. */
  lemma {:induction false} WalkShape(baseDir: string, directory: string, n: Node)
    requires IsPrefix(baseDir, directory)
    requires WellFormed(n)
    decreases n, 1
    ensures AllBelow(Walk(baseDir, directory, n), baseDir, Rel(baseDir, directory))
    ensures UniqueKeys(Walk(baseDir, directory, n))
    ensures PreOrder(Walk(baseDir, directory, n))
  {
    if Opens(n) {
      WalkChildrenShape(baseDir, directory, n, |n.children|);
    }
  }

  /** The first `k` children contribute entries under their own names only. */
  lemma {:induction false} WalkChildrenShape(baseDir: string, directory: string, n: Node, k: nat)
    requires IsPrefix(baseDir, directory)
    requires n.Directory? && k <= |n.children| && WellFormed(n)
    decreases n, 0, k
    ensures AllUnder(WalkChildren(baseDir, directory, n, k), baseDir, Rel(baseDir, directory), Names(n, k))
    ensures UniqueKeys(WalkChildren(baseDir, directory, n, k))
    ensures PreOrder(WalkChildren(baseDir, directory, n, k))
  {
    if k > 0 {
      var c := n.children[k - 1];
      WalkChildrenShape(baseDir, directory, n, k - 1);
      VisitShape(baseDir, directory, c);
      NamesStep(n, k);
      JoinBlocks(WalkChildren(baseDir, directory, n, k - 1), Visit(baseDir, directory, c),
                 baseDir, Rel(baseDir, directory), Names(n, k - 1), {c.name});
      PreOrderJoin(WalkChildren(baseDir, directory, n, k - 1), Visit(baseDir, directory, c),
                   baseDir, Rel(baseDir, directory), Names(n, k - 1), {c.name});
    }
  }

  /** The k-th child adds its name, which no earlier child has. */
  lemma NamesStep(n: Node, k: nat)
    requires n.Directory? && 0 < k <= |n.children| && WellFormed(n)
    ensures Names(n, k) == Names(n, k - 1) + {n.children[k - 1].name}
    ensures n.children[k - 1].name !in Names(n, k - 1)
  {
  }

  /**
   * A walk from the root itself: every recorded path is the root followed by
   * a relative path that starts with a backslash, no relative path occurs
   * twice, and no entry is a "." or ".." pseudo-entry.
   */
  lemma WalkFromRoot(baseDir: string, n: Node)
    requires WellFormed(n)
    ensures IsPrefix(baseDir, baseDir)
    ensures forall e | e in Walk(baseDir, baseDir, n) ::
      e.path == baseDir + e.relativePath && |e.relativePath| > 0 && e.relativePath[0] == Backslash &&
      !IsDot(LastComponent(e.relativePath))
    ensures UniqueKeys(Walk(baseDir, baseDir, n))
    ensures PreOrder(Walk(baseDir, baseDir, n))
  {
    assert IsPrefix(baseDir, baseDir);
    assert Rel(baseDir, baseDir) == [];
    WalkShape(baseDir, baseDir, n);
  }
}
