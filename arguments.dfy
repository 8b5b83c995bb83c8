/**
 * The command line: `dirdiff -s sourcedir -t targetdir -o outputdir`, exactly
 * six arguments after the program name, the three flags in any order.
 */
module Arguments {
  import opened Wrappers

  /** The three directories; a flag that never appears leaves its directory empty. */
  datatype Dirs = Dirs(source: string, target: string, output: string)

  const NoDirs := Dirs("", "", "")

  /** Why the arguments were rejected. */
  datatype ArgError =
    | WrongCount                  // argc != 7
    | MissingValue(flag: string)  // a flag is the last argument, with no value after it

  /** The number of entries argv must have, the program name included. */
  const ArgCount := 7

  predicate IsFlag(arg: string) {
    arg == "-s" || arg == "-t" || arg == "-o"
  }

  /** Records `value` for `flag`, replacing any value recorded for it before. */
  function SetDir(d: Dirs, flag: string, value: string): (r: Dirs)
    requires IsFlag(flag)
    ensures r.source == (if flag == "-s" then value else d.source)
    ensures r.target == (if flag == "-t" then value else d.target)
    ensures r.output == (if flag == "-o" then value else d.output)
  {
    if flag == "-s" then d.(source := value)
    else if flag == "-t" then d.(target := value)
    else d.(output := value)
  }

  /**
   * The argument loop from argument `i` on: a flag takes the next argument as
   * its value, anything else is skipped (it is only logged). A flag in the
   * last position has no value and is rejected.
   */
  function Scan(args: seq<string>, i: nat, d: Dirs): Result<Dirs, ArgError>
    requires |args| == ArgCount && 1 <= i <= ArgCount
    decreases ArgCount - i
  {
    if i == ArgCount then Ok(d)
    else if IsFlag(args[i]) then
      if i + 1 == ArgCount then Err(MissingValue(args[i]))
      else Scan(args, i + 2, SetDir(d, args[i], args[i + 1]))
    else Scan(args, i + 1, d)
  }

  /** What the command line yields: the directories, or why they are rejected. */
  function Parse(args: seq<string>): Result<Dirs, ArgError> {
    if |args| != ArgCount then Err(WrongCount) else Scan(args, 1, NoDirs)
  }

  /**
   * The argument loop of main, over argv[0..argc), with the bounds check the
   * program lacks: a flag in the last position is rejected as MissingValue
   * instead of reading argv[argc] (the loop as written is ScanAsWritten).
   */
  method ParseArguments(args: seq<string>) returns (r: Result<Dirs, ArgError>)
    ensures r == Parse(args)
  {
    if |args| != ArgCount {
      return Err(WrongCount);
    }
    var sourcedir, targetdir, outputdir := "", "", "";
    var i := 1;
    while i < ArgCount
      invariant 1 <= i <= ArgCount
      invariant Scan(args, i, Dirs(sourcedir, targetdir, outputdir)) == Parse(args)
      decreases ArgCount - i
    {
      if args[i] == "-s" || args[i] == "-t" || args[i] == "-o" {
        if i + 1 == ArgCount {
          return Err(MissingValue(args[i]));
        }
        if args[i] == "-s" {
          sourcedir := args[i + 1];
        } else if args[i] == "-t" {
          targetdir := args[i + 1];
        } else {
          outputdir := args[i + 1];
        }
        i := i + 2;
      } else {
        i := i + 1;
      }
    }
    return Ok(Dirs(sourcedir, targetdir, outputdir));
  }

  // ----- The loop as written -----

  /**
   * The loop as written reads `argv[++i]` after a flag without checking that
   * `i` is still below argc; for a flag in the last position that is
   * argv[argc], the null pointer, and constructing a std::string from it is
   * undefined behaviour. `readsNull` records that this happened, and the
   * scan stops there since nothing after it is defined.
   */
  datatype AsWritten = AsWritten(dirs: Dirs, readsNull: bool)

  function ScanAsWritten(args: seq<string>, i: nat, d: Dirs): AsWritten
    requires |args| == ArgCount && 1 <= i <= ArgCount
    decreases ArgCount - i
  {
    if i == ArgCount then AsWritten(d, false)
    else if IsFlag(args[i]) then
      if i + 1 == ArgCount then AsWritten(d, true)
      else ScanAsWritten(args, i + 2, SetDir(d, args[i], args[i + 1]))
    else ScanAsWritten(args, i + 1, d)
  }

  /** A command line with seven entries whose last flag has no value: the loop as written reads argv[7]. */
  lemma NullReadExample()
    ensures ScanAsWritten(["dirdiff", "-s", "src", "-t", "dst", "out", "-o"], 1, NoDirs).readsNull
    ensures Parse(["dirdiff", "-s", "src", "-t", "dst", "out", "-o"]) == Err(MissingValue("-o"))
  {
  }

  /**
   * The corrected loop rejects exactly the command lines on which the loop as
   * written reads argv[argc], and otherwise yields the same directories.
   */
  lemma {:induction false} ScanAgreesWithAsWritten(args: seq<string>, i: nat, d: Dirs)
    requires |args| == ArgCount && 1 <= i <= ArgCount
    ensures Scan(args, i, d).Err? <==> ScanAsWritten(args, i, d).readsNull
    ensures Scan(args, i, d).Ok? ==> Scan(args, i, d).value == ScanAsWritten(args, i, d).dirs
    decreases ArgCount - i
  {
    if i < ArgCount {
      if IsFlag(args[i]) {
        if i + 1 < ArgCount {
          ScanAgreesWithAsWritten(args, i + 2, SetDir(d, args[i], args[i + 1]));
        }
      } else {
        ScanAgreesWithAsWritten(args, i + 1, d);
      }
    }
  }

  // ----- What the command line means -----

  /**
   * Every command line on which the loop as written reads argv[argc] is
   * rejected, naming the flag in the last position.
   */
  lemma TrailingFlagRejected(args: seq<string>)
    requires |args| == ArgCount && ScanAsWritten(args, 1, NoDirs).readsNull
    ensures IsFlag(args[ArgCount - 1])
    ensures Parse(args) == Err(MissingValue(args[ArgCount - 1]))
  {
    TrailingFlagFrom(args, 1, NoDirs);
  }

  lemma {:induction false} TrailingFlagFrom(args: seq<string>, i: nat, d: Dirs)
    requires |args| == ArgCount && 1 <= i <= ArgCount
    requires ScanAsWritten(args, i, d).readsNull
    ensures IsFlag(args[ArgCount - 1])
    ensures Scan(args, i, d) == Err(MissingValue(args[ArgCount - 1]))
    decreases ArgCount - i
  {
    if IsFlag(args[i]) {
      if i + 1 < ArgCount {
        TrailingFlagFrom(args, i + 2, SetDir(d, args[i], args[i + 1]));
      }
    } else {
      TrailingFlagFrom(args, i + 1, d);
    }
  }

  /** The three flags may come in any order; each directory is the value after its flag. */
  lemma AnyOrder(prog: string, f1: string, v1: string, f2: string, v2: string, f3: string, v3: string)
    requires multiset{f1, f2, f3} == multiset{"-s", "-t", "-o"}
    ensures var r := Parse([prog, f1, v1, f2, v2, f3, v3]);
      && r.Ok?
      && r.value.source == (if f1 == "-s" then v1 else if f2 == "-s" then v2 else v3)
      && r.value.target == (if f1 == "-t" then v1 else if f2 == "-t" then v2 else v3)
      && r.value.output == (if f1 == "-o" then v1 else if f2 == "-o" then v2 else v3)
  {
    assert f1 in multiset{f1, f2, f3} && f2 in multiset{f1, f2, f3} && f3 in multiset{f1, f2, f3};
    assert IsFlag(f1) && IsFlag(f2) && IsFlag(f3);
    assert f1 != f2 && f1 != f3 && f2 != f3;
  }

  /** The directory a flag selects. */
  function DirOf(d: Dirs, flag: string): (r: string)
    requires IsFlag(flag)
    ensures SetDir(d, flag, r) == d
  {
    if flag == "-s" then d.source else if flag == "-t" then d.target else d.output
  }

  /** Setting a flag's directory twice keeps only the later value. */
  lemma SetDirOverwrites(d: Dirs, flag: string, first: string, second: string)
    requires IsFlag(flag)
    ensures SetDir(SetDir(d, flag, first), flag, second) == SetDir(d, flag, second)
    ensures DirOf(SetDir(d, flag, second), flag) == second
  {
  }

  /**
   * A flag given again: whatever value was recorded for it before the scan
   * reaches its occurrence at `i` has no effect on the result, and when the
   * flag does not occur after `i`, its value is the one after position `i`.
   */
  lemma RepeatedFlagKeepsLast(args: seq<string>, i: nat, d: Dirs, earlier: string)
    requires |args| == ArgCount && 1 <= i && i + 1 < ArgCount && IsFlag(args[i])
    ensures Scan(args, i, SetDir(d, args[i], earlier)) == Scan(args, i, d)
    ensures (forall k :: i + 2 <= k < ArgCount ==> args[k] != args[i]) && Scan(args, i, d).Ok? ==>
      DirOf(Scan(args, i, d).value, args[i]) == args[i + 1]
  {
    SetDirOverwrites(d, args[i], earlier, args[i + 1]);
    if forall k :: i + 2 <= k < ArgCount ==> args[k] != args[i] {
      AbsentFlagKept(args, i + 2, SetDir(d, args[i], args[i + 1]), args[i]);
    }
  }

  /** An argument that is not a flag is skipped: the scan goes on from the next one unchanged. */
  lemma UnknownArgumentSkipped(args: seq<string>, i: nat, d: Dirs)
    requires |args| == ArgCount && 1 <= i < ArgCount && !IsFlag(args[i])
    ensures Scan(args, i, d) == Scan(args, i + 1, d)
  {
  }

  /** A flag that never occurs from `i` on keeps the directory it had. */
  lemma {:induction false} AbsentFlagKept(args: seq<string>, i: nat, d: Dirs, flag: string)
    requires |args| == ArgCount && 1 <= i <= ArgCount && IsFlag(flag)
    requires forall k :: i <= k < ArgCount ==> args[k] != flag
    ensures Scan(args, i, d).Ok? ==> DirOf(Scan(args, i, d).value, flag) == DirOf(d, flag)
    decreases ArgCount - i
  {
    if i < ArgCount {
      if IsFlag(args[i]) {
        if i + 1 < ArgCount {
          AbsentFlagKept(args, i + 2, SetDir(d, args[i], args[i + 1]), flag);
        }
      } else {
        AbsentFlagKept(args, i + 1, d, flag);
      }
    }
  }

  /** A flag that never occurs on an accepted command line leaves its directory empty. */
  lemma AbsentFlagLeavesEmpty(args: seq<string>, flag: string)
    requires IsFlag(flag) && forall k :: 1 <= k < |args| ==> args[k] != flag
    ensures Parse(args).Ok? ==> DirOf(Parse(args).value, flag) == ""
  {
    if |args| == ArgCount {
      AbsentFlagKept(args, 1, NoDirs, flag);
    }
  }
}
