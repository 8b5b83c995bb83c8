/**
 * Sorting an inventory by relative path (std::list::sort with operator<) and
 * the ordered set algorithms std::set_intersection and std::set_difference
 * over two sorted inventories, keyed by relative path.
 */
module SetAlgebra {
  import opened Strings
  import opened Entries

  /** Non-decreasing by relative path: what std::list::sort establishes. */
  predicate Sorted(s: seq<FindData>) {
    forall i, j :: 0 <= i < j < |s| ==> !Before(s[j], s[i])
  }

  /** Strictly increasing by relative path: sorted, and no relative path twice. */
  predicate Increasing(s: seq<FindData>) {
    forall i, j :: 0 <= i < j < |s| ==> Before(s[i], s[j])
  }

  // ----- Sorting -----

  /** Places `x` after every entry that is not after it (so equal keys keep their order). */
  function Insert(x: FindData, s: seq<FindData>): (r: seq<FindData>)
    ensures multiset(r) == multiset(s) + multiset{x}
  {
    if s == [] then [x]
    else if Before(x, s[0]) then [x] + s
    else
      assert s == [s[0]] + s[1..];
      [s[0]] + Insert(x, s[1..])
  }

  /** std::list::sort on the inventory, as insertion of each entry in turn. */
  function Sort(s: seq<FindData>): (r: seq<FindData>)
    ensures multiset(r) == multiset(s)
  {
    if s == [] then []
    else
      assert s == s[..|s| - 1] + [s[|s| - 1]];
      Insert(s[|s| - 1], Sort(s[..|s| - 1]))
  }

  /** Permuting a list keeps its set of keys. */
  lemma KeysOfPermutation(s: seq<FindData>, t: seq<FindData>)
    requires multiset(s) == multiset(t)
    ensures Keys(s) == Keys(t)
  {
    forall k | k in Keys(s) ensures k in Keys(t) {
      var e :| e in s && e.relativePath == k;
      assert e in multiset(t);
    }
    forall k | k in Keys(t) ensures k in Keys(s) {
      var e :| e in t && e.relativePath == k;
      assert e in multiset(s);
    }
  }

  /** An entry of `Insert(x, s)` is `x` or an entry of `s`. */
  lemma InsertMember(x: FindData, s: seq<FindData>, e: FindData)
    requires e in Insert(x, s)
    ensures e == x || e in s
  {
    assert e in multiset(Insert(x, s));
  }

  lemma {:induction false} InsertSorted(x: FindData, s: seq<FindData>)
    requires Sorted(s)
    ensures Sorted(Insert(x, s))
  {
    if s == [] {
    } else if Before(x, s[0]) {
      var r := [x] + s;
      forall i, j | 0 <= i < j < |r| ensures !Before(r[j], r[i]) {
        if i == 0 {
          assert r[j] == s[j - 1];
          if j > 1 {
            assert !Before(s[j - 1], s[0]);
            if Before(s[j - 1], x) {
              LessTransitive(s[j - 1].relativePath, x.relativePath, s[0].relativePath);
            }
          } else {
            LessAsymmetric(x.relativePath, s[0].relativePath);
          }
        } else {
          assert r[i] == s[i - 1] && r[j] == s[j - 1];
        }
      }
    } else {
      var rest := Insert(x, s[1..]);
      InsertSorted(x, s[1..]);
      var r := [s[0]] + rest;
      forall i, j | 0 <= i < j < |r| ensures !Before(r[j], r[i]) {
        if i == 0 {
          assert r[j] == rest[j - 1] && r[j] in rest;
          InsertMember(x, s[1..], r[j]);
          if r[j] != x {
            var k :| 0 <= k < |s[1..]| && s[1..][k] == r[j];
            assert s[k + 1] == r[j];
          }
        } else {
          assert r[i] == rest[i - 1] && r[j] == rest[j - 1];
        }
      }
    }
  }

  lemma {:induction false} InsertIncreasing(x: FindData, s: seq<FindData>)
    requires Increasing(s) && x.relativePath !in Keys(s)
    ensures Increasing(Insert(x, s))
  {
    if s == [] {
    } else if Before(x, s[0]) {
      var r := [x] + s;
      forall i, j | 0 <= i < j < |r| ensures Before(r[i], r[j]) {
        if i == 0 {
          assert r[j] == s[j - 1];
          if j > 1 {
            LessTransitive(x.relativePath, s[0].relativePath, s[j - 1].relativePath);
          }
        } else {
          assert r[i] == s[i - 1] && r[j] == s[j - 1];
        }
      }
    } else {
      var rest := Insert(x, s[1..]);
      assert s[0] in s;
      assert Keys(s[1..]) <= Keys(s) by {
        forall k | k in Keys(s[1..]) ensures k in Keys(s) {
          var e :| e in s[1..] && e.relativePath == k;
          assert e in s;
        }
      }
      InsertIncreasing(x, s[1..]);
      var r := [s[0]] + rest;
      forall i, j | 0 <= i < j < |r| ensures Before(r[i], r[j]) {
        if i == 0 {
          assert r[j] == rest[j - 1] && r[j] in rest;
          InsertMember(x, s[1..], r[j]);
          if r[j] != x {
            var k :| 0 <= k < |s[1..]| && s[1..][k] == r[j];
            assert s[k + 1] == r[j];
          } else {
            LessTotal(x.relativePath, s[0].relativePath);
          }
        } else {
          assert r[i] == rest[i - 1] && r[j] == rest[j - 1];
        }
      }
    }
  }

  /** The sorted list holds the same entries, ordered by relative path. */
  lemma {:induction false} SortSorted(s: seq<FindData>)
    ensures Sorted(Sort(s)) && multiset(Sort(s)) == multiset(s)
  {
    if s != [] {
      SortSorted(s[..|s| - 1]);
      InsertSorted(s[|s| - 1], Sort(s[..|s| - 1]));
    }
  }

  /** Sorting a list with no relative path twice gives a strictly increasing list. */
  lemma {:induction false} SortIncreasing(s: seq<FindData>)
    requires UniqueKeys(s)
    ensures Increasing(Sort(s)) && Keys(Sort(s)) == Keys(s)
  {
    KeysOfPermutation(Sort(s), s);
    if s != [] {
      var init := s[..|s| - 1];
      var x := s[|s| - 1];
      SortIncreasing(init);
      forall e | e in init ensures e.relativePath != x.relativePath {
        var k :| 0 <= k < |init| && init[k] == e;
        assert s[k] == e;
      }
      InsertIncreasing(x, Sort(init));
    }
  }

  // ----- Ordered set algebra keyed by relative path -----

  /**
   * The entries of `a`, in order, whose relative path is in `keys` (when
   * `inside`) or is not (otherwise).
   */
  function Select(a: seq<FindData>, keys: set<string>, inside: bool): seq<FindData> {
    if a == [] then []
    else
      var last := a[|a| - 1];
      Select(a[..|a| - 1], keys, inside) + (if (last.relativePath in keys) == inside then [last] else [])
  }

  /** `x` can be obtained from `y` by deleting entries. */
  predicate IsSubsequence(x: seq<FindData>, y: seq<FindData>)
    decreases |y|
  {
    if x == [] then true
    else if y == [] then false
    else if x[|x| - 1] == y[|y| - 1] then IsSubsequence(x[..|x| - 1], y[..|y| - 1])
    else IsSubsequence(x, y[..|y| - 1])
  }

  lemma {:induction false} SubsequenceDropLast(x: seq<FindData>, y: seq<FindData>)
    requires x != [] && IsSubsequence(x, y)
    ensures IsSubsequence(x[..|x| - 1], y)
    decreases |y|, 0
  {
    if y != [] && x[|x| - 1] != y[|y| - 1] {
      SubsequenceDropLast(x, y[..|y| - 1]);
      SubsequenceExtend(x[..|x| - 1], y[..|y| - 1], y[|y| - 1]);
      assert y[..|y| - 1] + [y[|y| - 1]] == y;
    } else if y != [] {
      SubsequenceExtend(x[..|x| - 1], y[..|y| - 1], y[|y| - 1]);
      assert y[..|y| - 1] + [y[|y| - 1]] == y;
    }
  }

  lemma {:induction false} SubsequenceExtend(x: seq<FindData>, y: seq<FindData>, z: FindData)
    requires IsSubsequence(x, y)
    ensures IsSubsequence(x, y + [z])
    decreases |y|, 1
  {
    assert (y + [z])[..|y|] == y;
    if x != [] && x[|x| - 1] == z {
      SubsequenceDropLast(x, y);
    }
  }

  /** Every entry of a subsequence is an entry of the sequence. */
  lemma {:induction false} SubsequenceMembers(x: seq<FindData>, y: seq<FindData>)
    requires IsSubsequence(x, y)
    ensures forall e :: e in x ==> e in y
    decreases |y|
  {
    if x != [] {
      var y' := y[..|y| - 1];
      assert y == y' + [y[|y| - 1]];
      if x[|x| - 1] == y[|y| - 1] {
        SubsequenceMembers(x[..|x| - 1], y');
        assert x == x[..|x| - 1] + [x[|x| - 1]];
      } else {
        SubsequenceMembers(x, y');
      }
    }
  }

  /** A subsequence of an increasing list is increasing. */
  lemma {:induction false} SubsequenceIncreasing(x: seq<FindData>, y: seq<FindData>)
    requires IsSubsequence(x, y) && Increasing(y)
    ensures Increasing(x)
    decreases |y|
  {
    if x != [] {
      var y' := y[..|y| - 1];
      if x[|x| - 1] == y[|y| - 1] {
        var x' := x[..|x| - 1];
        SubsequenceIncreasing(x', y');
        SubsequenceMembers(x', y');
        forall i | 0 <= i < |x'| ensures Before(x[i], x[|x| - 1]) {
          assert x[i] == x'[i] && x'[i] in y';
          var k :| 0 <= k < |y'| && y'[k] == x'[i];
        }
      } else {
        SubsequenceIncreasing(x, y');
      }
    }
  }

  /** Membership in a selection: exactly the entries of `a` on the chosen side of `keys`. */
  lemma {:induction false} SelectMembers(a: seq<FindData>, keys: set<string>, inside: bool)
    ensures forall e :: e in Select(a, keys, inside) <==> e in a && (e.relativePath in keys) == inside
  {
    if a != [] {
      SelectMembers(a[..|a| - 1], keys, inside);
      assert a == a[..|a| - 1] + [a[|a| - 1]];
    }
  }

  /** A selection keeps the order of `a`: it is a subsequence of it. */
  lemma {:induction false} SelectSubsequence(a: seq<FindData>, keys: set<string>, inside: bool)
    ensures IsSubsequence(Select(a, keys, inside), a)
  {
    if a != [] {
      var init := a[..|a| - 1];
      var last := a[|a| - 1];
      SelectSubsequence(init, keys, inside);
      assert init + [last] == a;
      if (last.relativePath in keys) == inside {
        var s := Select(a, keys, inside);
        assert s[..|s| - 1] == Select(init, keys, inside);
      } else {
        assert Select(a, keys, inside) == Select(init, keys, inside);
        SubsequenceExtend(Select(init, keys, inside), init, last);
      }
    }
  }

  /**
   * The two sides of a selection partition `a`: together they hold every entry
   * of `a` exactly as often as `a` does.
   */
  lemma {:induction false} SelectPartition(a: seq<FindData>, keys: set<string>)
    ensures multiset(Select(a, keys, true)) + multiset(Select(a, keys, false)) == multiset(a)
  {
    if a != [] {
      var init, last := a[..|a| - 1], a[|a| - 1];
      SelectPartition(init, keys);
      assert a == init + [last];
      var t, f := Select(init, keys, true), Select(init, keys, false);
      if last.relativePath in keys {
        assert Select(a, keys, true) == t + [last] && Select(a, keys, false) == f;
        assert multiset(t + [last]) == multiset(t) + multiset{last};
      } else {
        assert Select(a, keys, true) == t && Select(a, keys, false) == f + [last];
        assert multiset(f + [last]) == multiset(f) + multiset{last};
      }
    }
  }

  /** The keys of the two sides: those of `a` in `keys`, and those of `a` not in `keys`. */
  lemma SelectKeys(a: seq<FindData>, keys: set<string>)
    ensures Keys(Select(a, keys, true)) == Keys(a) * keys
    ensures Keys(Select(a, keys, false)) == Keys(a) - keys
  {
    SelectMembers(a, keys, true);
    SelectMembers(a, keys, false);
  }

  /** A selection from an increasing list is increasing. */
  lemma SelectIncreasing(a: seq<FindData>, keys: set<string>, inside: bool)
    requires Increasing(a)
    ensures Increasing(Select(a, keys, inside))
  {
    SelectSubsequence(a, keys, inside);
    SubsequenceIncreasing(Select(a, keys, inside), a);
  }

  /** When no entry from index `i` on has its key in `keys`, only the prefix is selected inside. */
  lemma {:induction false} SelectRestOutside(a: seq<FindData>, i: nat, keys: set<string>)
    requires i <= |a|
    requires forall t :: i <= t < |a| ==> a[t].relativePath !in keys
    ensures Select(a, keys, true) == Select(a[..i], keys, true)
    ensures Select(a, keys, false) == Select(a[..i], keys, false) + a[i..]
  {
    if i < |a| {
      var init := a[..|a| - 1];
      SelectRestOutside(init, i, keys);
      assert init[..i] == a[..i];
      assert init[i..] + [a[|a| - 1]] == a[i..];
    } else {
      assert a[..i] == a;
    }
  }

  /** One more entry of `a` in the prefix adds that entry on its side. */
  lemma SelectStep(a: seq<FindData>, i: nat, keys: set<string>, inside: bool)
    requires i < |a|
    ensures Select(a[..i + 1], keys, inside) ==
            Select(a[..i], keys, inside) + (if (a[i].relativePath in keys) == inside then [a[i]] else [])
  {
    assert a[..i + 1][..i] == a[..i];
  }

  /**
   * `x` is not a key of the increasing list `b` when every entry before
   * index `j` is before `x` and the entry at `j` (if any) is after it.
   */
  lemma NotAKey(x: FindData, b: seq<FindData>, j: nat)
    requires Increasing(b) && j <= |b|
    requires forall k :: 0 <= k < j ==> Before(b[k], x)
    requires j < |b| ==> Before(x, b[j])
    ensures x.relativePath !in Keys(b)
  {
    if x.relativePath in Keys(b) {
      var e :| e in b && e.relativePath == x.relativePath;
      var k :| 0 <= k < |b| && b[k] == e;
      if k < j {
        LessIrreflexive(x.relativePath);
      } else if k == j {
        LessIrreflexive(x.relativePath);
      } else {
        LessTransitive(x.relativePath, b[j].relativePath, b[k].relativePath);
        LessIrreflexive(x.relativePath);
      }
    }
  }

  /**
   * The two bounds a merge scan keeps at positions `i` of `a` and `j` of `b`:
   * every entry of `b` already passed is before `a[i]`, and every entry of
   * `a` already passed is before `b[j]`.
   */
  predicate Scanned(a: seq<FindData>, b: seq<FindData>, i: nat, j: nat) {
    i <= |a| && j <= |b|
    && (i < |a| ==> forall k :: 0 <= k < j ==> Before(b[k], a[i]))
    && (j < |b| ==> forall k :: 0 <= k < i ==> Before(a[k], b[j]))
  }

  /**
   * std::set_intersection(a, b): the entries of `a` whose relative path is
   * also in `b`, in the order of `a`, with the values taken from `a`.
   */
  method SetIntersection(a: seq<FindData>, b: seq<FindData>) returns (out: seq<FindData>)
    requires Increasing(a) && Increasing(b)
    ensures out == Select(a, Keys(b), true)
  {
    out := [];
    var i, j := 0, 0;
    while i < |a| && j < |b|
      invariant Scanned(a, b, i, j)
      invariant out == Select(a[..i], Keys(b), true)
    {
      if Before(a[i], b[j]) {
        StepFirst(a, b, i, j, true);
        i := i + 1;
      } else if Before(b[j], a[i]) {
        StepSecond(a, b, i, j);
        j := j + 1;
      } else {
        StepBoth(a, b, i, j, true);
        out := out + [a[i]];
        i, j := i + 1, j + 1;
      }
    }
    Finish(a, b, i, j, true);
  }

  /**
   * std::set_difference(a, b): the entries of `a` whose relative path is not
   * in `b`, in the order of `a`.
   */
  method SetDifference(a: seq<FindData>, b: seq<FindData>) returns (out: seq<FindData>)
    requires Increasing(a) && Increasing(b)
    ensures out == Select(a, Keys(b), false)
  {
    out := [];
    var i, j := 0, 0;
    while i < |a|
      invariant Scanned(a, b, i, j)
      invariant out == Select(a[..i], Keys(b), false)
      decreases |a| - i + |b| - j
    {
      if j == |b| {
        Finish(a, b, i, j, false);
        out := out + a[i..];
        i := |a|;
        assert a[..i] == a;
      } else if Before(a[i], b[j]) {
        StepFirst(a, b, i, j, false);
        out := out + [a[i]];
        i := i + 1;
      } else if Before(b[j], a[i]) {
        StepSecond(a, b, i, j);
        j := j + 1;
      } else {
        StepBoth(a, b, i, j, false);
        i, j := i + 1, j + 1;
      }
    }
    assert a[..i] == a;
  }

  // ----- The merge steps keep the scan's two bounds -----

  /** After `a[i] < b[j]`, `a[i]` is on the outside of `b`, and advancing in `a` keeps both bounds. */
  lemma StepFirst(a: seq<FindData>, b: seq<FindData>, i: nat, j: nat, inside: bool)
    requires Increasing(a) && Increasing(b) && i < |a| && j < |b|
    requires Scanned(a, b, i, j) && Before(a[i], b[j])
    ensures Scanned(a, b, i + 1, j)
    ensures Select(a[..i + 1], Keys(b), inside) ==
            Select(a[..i], Keys(b), inside) + (if inside then [] else [a[i]])
  {
    NotAKey(a[i], b, j);
    SelectStep(a, i, Keys(b), inside);
    if i + 1 < |a| {
      forall k | 0 <= k < j ensures Before(b[k], a[i + 1]) {
        LessTransitive(b[k].relativePath, a[i].relativePath, a[i + 1].relativePath);
      }
    }
  }

  /** After `b[j] < a[i]`, advancing in `b` keeps both bounds. */
  lemma StepSecond(a: seq<FindData>, b: seq<FindData>, i: nat, j: nat)
    requires Increasing(a) && Increasing(b) && i < |a| && j < |b|
    requires Scanned(a, b, i, j) && Before(b[j], a[i])
    ensures Scanned(a, b, i, j + 1)
  {
    if j + 1 < |b| {
      forall k | 0 <= k < i ensures Before(a[k], b[j + 1]) {
        LessTransitive(a[k].relativePath, b[j].relativePath, b[j + 1].relativePath);
      }
    }
  }

  /** When neither is before the other, `a[i]` is inside `b`, and advancing in both keeps both bounds. */
  lemma StepBoth(a: seq<FindData>, b: seq<FindData>, i: nat, j: nat, inside: bool)
    requires Increasing(a) && Increasing(b) && i < |a| && j < |b|
    requires Scanned(a, b, i, j) && !Before(a[i], b[j]) && !Before(b[j], a[i])
    ensures Scanned(a, b, i + 1, j + 1)
    ensures Select(a[..i + 1], Keys(b), inside) ==
            Select(a[..i], Keys(b), inside) + (if inside then [a[i]] else [])
  {
    EquivalentIffSameRelativePath(a[i], b[j]);
    assert b[j] in b;
    SelectStep(a, i, Keys(b), inside);
    if i + 1 < |a| {
      forall k | 0 <= k < j + 1 ensures Before(b[k], a[i + 1]) {
        if k < j {
          LessTransitive(b[k].relativePath, a[i].relativePath, a[i + 1].relativePath);
        }
      }
    }
    if j + 1 < |b| {
      forall k | 0 <= k < i + 1 ensures Before(a[k], b[j + 1]) {
        if k < i {
          LessTransitive(a[k].relativePath, b[j].relativePath, b[j + 1].relativePath);
        }
      }
    }
  }

  /**
   * When one side is exhausted the selection is decided: if `a` is, the
   * prefix is all of `a`; if `b` is, no remaining entry of `a` is in `b`.
   */
  lemma Finish(a: seq<FindData>, b: seq<FindData>, i: nat, j: nat, inside: bool)
    requires Increasing(a) && Increasing(b) && Scanned(a, b, i, j)
    requires i == |a| || j == |b|
    ensures Select(a, Keys(b), true) == Select(a[..i], Keys(b), true)
    ensures Select(a, Keys(b), false) == Select(a[..i], Keys(b), false) + a[i..]
  {
    if i < |a| {
      PastTheEnd(a, b, i);
    } else {
      assert a[..i] == a && a[i..] == [];
    }
    SelectRestOutside(a, i, Keys(b));
  }

  /** Once `b` is exhausted, no entry of `a` from index `i` on is a key of `b`. */
  lemma PastTheEnd(a: seq<FindData>, b: seq<FindData>, i: nat)
    requires Increasing(a) && Increasing(b) && i < |a| && Scanned(a, b, i, |b|)
    ensures forall t :: i <= t < |a| ==> a[t].relativePath !in Keys(b)
  {
    forall t | i <= t < |a| ensures a[t].relativePath !in Keys(b) {
      forall k | 0 <= k < |b| ensures Before(b[k], a[t]) {
        if t > i {
          LessTransitive(b[k].relativePath, a[i].relativePath, a[t].relativePath);
        }
      }
      NotAKey(a[t], b, |b|);
    }
  }
}
