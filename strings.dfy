/**
 * The std::string operations the diff engine relies on: find, find_first_of,
 * the lexicographic operator<, and the path-component helpers that state what
 * the walk and the copy procedure build.
 */
module Strings {
  import opened Wrappers

  const Backslash: char := '\\'

  /** `pre` is a prefix of `s`. */
  predicate IsPrefix(pre: string, s: string) {
    |pre| <= |s| && s[..|pre|] == pre
  }

  /** `pat` occurs in `s` starting at index `j`. */
  predicate OccursAt(s: string, pat: string, j: nat) {
    j + |pat| <= |s| && s[j..j + |pat|] == pat
  }

  /** std::string::find(pat, from): the first occurrence at or after `from`, None for npos. */
  function FindFrom(s: string, pat: string, from: nat): (r: Option<nat>)
    decreases |s| - from
    ensures r.Some? ==> from <= r.value && OccursAt(s, pat, r.value)
    ensures r.Some? ==> forall j :: from <= j < r.value ==> !OccursAt(s, pat, j)
    ensures r.None? ==> forall j :: from <= j ==> !OccursAt(s, pat, j)
  {
    if from + |pat| > |s| then None
    else if s[from..from + |pat|] == pat then Some(from)
    else FindFrom(s, pat, from + 1)
  }

  /** std::string::find(pat). */
  function Find(s: string, pat: string): (r: Option<nat>)
    ensures r.Some? ==> OccursAt(s, pat, r.value) && forall j :: 0 <= j < r.value ==> !OccursAt(s, pat, j)
    ensures r.None? ==> forall j :: 0 <= j ==> !OccursAt(s, pat, j)
  {
    FindFrom(s, pat, 0)
  }

  /** A prefix is found at index 0: find never reports a later occurrence of it. */
  lemma FindPrefix(pre: string, s: string)
    requires IsPrefix(pre, s)
    ensures Find(s, pre) == Some(0)
  {
    assert OccursAt(s, pre, 0);
  }

  /** std::string::find_first_of(c, from) for a single character, None for npos. */
  function FindFirstOf(s: string, c: char, from: nat): (r: Option<nat>)
    decreases |s| - from
    ensures r.Some? ==> from <= r.value < |s| && s[r.value] == c
    ensures r.Some? ==> forall j :: from <= j < r.value ==> s[j] != c
    ensures r.None? ==> forall j :: from <= j < |s| ==> s[j] != c
  {
    if from >= |s| then None
    else if s[from] == c then Some(from)
    else FindFirstOf(s, c, from + 1)
  }

  /** std::string operator<: lexicographic comparison, character by character. */
  predicate Less(a: string, b: string) {
    if |a| == 0 then |b| > 0
    else if |b| == 0 then false
    else a[0] < b[0] || (a[0] == b[0] && Less(a[1..], b[1..]))
  }

  lemma {:induction false} LessIrreflexive(a: string)
    ensures !Less(a, a)
  {
    if |a| > 0 {
      LessIrreflexive(a[1..]);
    }
  }

  lemma {:induction false} LessTransitive(a: string, b: string, c: string)
    requires Less(a, b) && Less(b, c)
    ensures Less(a, c)
  {
    if |a| > 0 && |b| > 0 && |c| > 0 && a[0] == b[0] == c[0] {
      LessTransitive(a[1..], b[1..], c[1..]);
    }
  }

  /** Two strings are either equal or one of them is less: the order is total. */
  lemma {:induction false} LessTotal(a: string, b: string)
    ensures a == b || Less(a, b) || Less(b, a)
  {
    if |a| > 0 && |b| > 0 && a[0] == b[0] {
      LessTotal(a[1..], b[1..]);
      if a[1..] == b[1..] {
        assert a == [a[0]] + a[1..] && b == [b[0]] + b[1..];
      }
    }
  }

  lemma {:induction false} LessAsymmetric(a: string, b: string)
    requires Less(a, b)
    ensures !Less(b, a)
  {
    if |a| > 0 && |b| > 0 && a[0] == b[0] {
      LessAsymmetric(a[1..], b[1..]);
    }
  }

  /** Neither string is less than the other exactly when they are equal. */
  lemma EquivalentIffEqual(a: string, b: string)
    ensures (!Less(a, b) && !Less(b, a)) <==> a == b
  {
    LessTotal(a, b);
    LessIrreflexive(a);
  }

  /** The characters of `s` up to (not including) its first backslash. */
  function Component(s: string): string {
    if s == [] || s[0] == Backslash then [] else [s[0]] + Component(s[1..])
  }

  /**
   * A name without a backslash, followed by nothing or by a backslash, is
   * recovered as the first component.
   */
  lemma {:induction false} ComponentOfName(name: string, tail: string)
    requires Backslash !in name
    requires tail == [] || tail[0] == Backslash
    ensures Component(name + tail) == name
  {
    if name != [] {
      assert (name + tail)[1..] == name[1..] + tail;
      ComponentOfName(name[1..], tail);
    }
  }

  /** Extending a string by a tail that starts a new component keeps its first component. */
  lemma {:induction false} ComponentExtend(s: string, tail: string)
    requires tail == [] || tail[0] == Backslash
    ensures Component(s + tail) == Component(s)
  {
    if s != [] && s[0] != Backslash {
      assert (s + tail)[1..] == s[1..] + tail;
      ComponentExtend(s[1..], tail);
    }
  }

  /** The characters of `s` after its last backslash. */
  function LastComponent(s: string): string {
    if s == [] || s[|s| - 1] == Backslash then [] else LastComponent(s[..|s| - 1]) + [s[|s| - 1]]
  }

  lemma {:induction false} LastComponentOfJoin(dir: string, name: string)
    requires Backslash !in name
    ensures LastComponent(dir + [Backslash] + name) == name
  {
    if name == [] {
    } else {
      var s := dir + [Backslash] + name;
      assert s[..|s| - 1] == dir + [Backslash] + name[..|name| - 1];
      LastComponentOfJoin(dir, name[..|name| - 1]);
      assert name == name[..|name| - 1] + [name[|name| - 1]];
    }
  }
}
