/** The command-line option filter of the FMS driver (`processArgs`).

    `argv` is an array of C strings; an argument is a `string` without its
    terminating NUL, and the number of arguments `argc` is the array's length.
    The three file-scope globals the filter writes (`prog`, `outfile`,
    `verbose`) are the fields of a `Settings` object.  `usage` prints a
    message and always exits the process; here it is the result `Exit`,
    carrying the reason the message would give.
 */
module CommandLine {

  datatype Option<T> = None | Some(value: T)

  /** Why `usage` was called. */
  datatype UsageReason =
    | Help                      // -h or -H
    | MissingFilename           // -o as the last argument
    | UnknownSwitch(arg: string) // any other switch, a bare "-" included

  /** Outcome of scanning the leading run of switches: either the index of the
      first positional argument together with the settings in force there, or
      a call of `usage`. */
  datatype Scan =
    | Stop(next: nat, verbose: int, outfile: Option<string>)
    | Usage(reason: UsageReason)

  /** What `processArgs` does for its caller: it exits, or it hands back the
      (same) argument array with its new argument count. */
  datatype ArgsResult =
    | Exit(reason: UsageReason)
    | Parsed(argv: array<string>, argc: nat)

  /** Character `k` of a C string: the terminating NUL sits just past the
      last character. */
  function CharAt(s: string, k: nat): char
  {
    if k < |s| then s[k] else '\0'
  }

  /** The filter treats an argument as a switch when its first character is '-'.
      The empty string has NUL there, so it is positional. */
  predicate IsSwitch(arg: string)
  {
    CharAt(arg, 0) == '-'
  }

  /** A switch the filter steps over instead of calling `usage`. */
  predicate Accepted(args: seq<string>, i: nat)
    requires i < |args|
  {
    CharAt(args[i], 1) == 'v' || (CharAt(args[i], 1) == 'o' && i + 1 < |args|)
  }

  /** Number of arguments a switch consumes: `-o` also takes its file name. */
  function Width(args: seq<string>, i: nat): nat
    requires i < |args|
  {
    if CharAt(args[i], 1) == 'o' then 2 else 1
  }

  /** The reason `usage` is called for a switch that is not accepted. */
  function ReasonAt(args: seq<string>, j: nat): UsageReason
    requires j < |args|
  {
    var c := CharAt(args[j], 1);
    if c == 'h' || c == 'H' then Help
    else if c == 'o' then MissingFilename
    else UnknownSwitch(args[j])
  }

  /** The switch loop of `processArgs` as a function: scan from index `i`
      with the settings `verbose` and `outfile` in force. Only the second
      character of a switch is examined. */
  function ScanSwitches(args: seq<string>, i: nat, verbose: int, outfile: Option<string>): (r: Scan)
    ensures r.Stop? ==> i <= r.next && (i <= |args| ==> r.next <= |args|)
    decreases |args| - i
  {
    if i >= |args| || !IsSwitch(args[i]) then Stop(i, verbose, outfile)
    else
      var c := CharAt(args[i], 1);
      if c == 'h' || c == 'H' then Usage(Help)
      else if c == 'v' then ScanSwitches(args, i + 1, 1, outfile)
      else if c == 'o' then
        if i + 1 >= |args| then Usage(MissingFilename)
        else ScanSwitches(args, i + 2, verbose, Some(args[i + 1]))
      else Usage(UnknownSwitch(args[i]))
  }

  /** Index `j` holds a switch that the scan starting at `i` examines: the
      scan reaches `j` by stepping over accepted switches only. */
  ghost predicate Reached(args: seq<string>, i: nat, j: nat)
    ensures Reached(args, i, j) ==> i <= j < |args|
    decreases |args| - i
  {
    i < |args| && IsSwitch(args[i]) &&
    (j == i || (Accepted(args, i) && Reached(args, i + Width(args, i), j)))
  }

  /** The arguments copied down to `argv[1..]`: all of them from the first
      positional one on. */
  function Positional(args: seq<string>, next: nat): seq<string>
  {
    if next <= |args| then args[next..] else []
  }

  /** The argument count `processArgs` writes back. */
  function NewArgc(args: seq<string>, next: nat): nat
  {
    1 + |Positional(args, next)|
  }

  /** The argument array after compaction: `argv[0]` stays, the positional
      arguments follow it, and the tail beyond the new count is left as it was. */
  function Compacted(args: seq<string>, next: nat): seq<string>
    requires 1 <= next
  {
    if |args| == 0 then []
    else [args[0]] + Positional(args, next) + args[NewArgc(args, next)..]
  }

  /** The file-scope settings that `processArgs` writes and `main` reads. */
  class Settings {
    var prog: Option<string>
    var outfile: Option<string>
    var verbose: int

    /** Static storage starts zeroed: no program name, no output file, quiet. */
    constructor ()
      ensures prog == None && outfile == None && verbose == 0
    {
      prog := None;
      outfile := None;
      verbose := 0;
    }

    /** Filter the options out of `argv` in place. On success `argv[0]` and
        `prog` hold the program name, the positional arguments are moved down
        to `argv[1..]`, and the new count is returned with the same array. */
    method ProcessArgs(argv: array<string>) returns (r: ArgsResult)
      modifies this, argv
      ensures prog == (if argv.Length > 0 then Some(old(argv[0])) else None)
      ensures ScanSwitches(old(argv[..]), 1, old(verbose), old(outfile)).Usage? ==>
                r == Exit(ScanSwitches(old(argv[..]), 1, old(verbose), old(outfile)).reason) &&
                argv[..] == old(argv[..])
      ensures ScanSwitches(old(argv[..]), 1, old(verbose), old(outfile)).Stop? ==>
                r == Parsed(argv, NewArgc(old(argv[..]), ScanSwitches(old(argv[..]), 1, old(verbose), old(outfile)).next)) &&
                verbose == ScanSwitches(old(argv[..]), 1, old(verbose), old(outfile)).verbose &&
                outfile == ScanSwitches(old(argv[..]), 1, old(verbose), old(outfile)).outfile &&
                argv[..] == Compacted(old(argv[..]), ScanSwitches(old(argv[..]), 1, old(verbose), old(outfile)).next)
    {
      ghost var args := argv[..];
      ghost var scan := ScanSwitches(args, 1, verbose, outfile);
      var oldargc := argv.Length;
      var oldargv := new string[oldargc];
      for i := 0 to oldargc
        modifies oldargv
        invariant oldargv[..i] == args[..i]
      {
        oldargv[i] := argv[i];
      }
      assert oldargv[..] == args;
      prog := if oldargc > 0 then Some(argv[0]) else None;

      // the leading run of switches
      var argc := 1;
      var newargc := 1;
      while argc < oldargc
        modifies this`verbose, this`outfile
        invariant 1 <= argc && (oldargc > 0 ==> argc <= oldargc)
        invariant scan == ScanSwitches(args, argc, verbose, outfile)
        decreases oldargc - argc
      {
        if CharAt(oldargv[argc], 0) != '-' {
          break;
        }
        var c := CharAt(oldargv[argc], 1);
        if c == 'h' || c == 'H' {
          return Exit(Help);
        } else if c == 'v' {
          verbose := 1;
        } else if c == 'o' {
          if argc + 1 >= oldargc {
            return Exit(MissingFilename);
          }
          outfile := Some(oldargv[argc + 1]);
          argc := argc + 1;
        } else {
          return Exit(UnknownSwitch(oldargv[argc]));
        }
        argc := argc + 1;
      }
      assert scan == Stop(argc, verbose, outfile);
      ghost var next := argc;

      // copy over all remaining arguments
      while argc < oldargc
        modifies argv
        invariant 1 <= next <= argc && (argc == next || argc <= oldargc)
        invariant oldargc > 0 ==> argc <= oldargc
        invariant newargc == 1 + argc - next
        invariant oldargc > 0 ==> argv[0] == args[0]
        invariant forall k :: 1 <= k < newargc ==> argv[k] == args[next + k - 1]
        invariant forall k :: newargc <= k < oldargc ==> argv[k] == args[k]
        decreases oldargc - argc
      {
        argv[newargc] := oldargv[argc];
        newargc := newargc + 1;
        argc := argc + 1;
      }
      assert newargc == NewArgc(args, next);
      CompactedAt(args, next, argv[..]);
      r := Parsed(argv, newargc);
    }
  }

  /** Extensionality for `Compacted`, element by element. */
  lemma CompactedAt(args: seq<string>, next: nat, a: seq<string>)
    requires 1 <= next && (|args| > 0 ==> next <= |args|)
    requires |a| == |args|
    requires |args| > 0 ==> a[0] == args[0]
    requires forall k :: 1 <= k < NewArgc(args, next) && k < |a| ==> a[k] == args[next + k - 1]
    requires forall k :: NewArgc(args, next) <= k < |a| ==> a[k] == args[k]
    ensures a == Compacted(args, next)
  {
    if |args| > 0 {
      var c := Compacted(args, next);
      assert |c| == |a|;
      forall k | 0 <= k < |a|
        ensures a[k] == c[k]
      {
        if 1 <= k < NewArgc(args, next) {
          assert c[k] == Positional(args, next)[k - 1];
        }
      }
    }
  }

  /** The scan starting at `i` can stop at `next`: `next` is `i` itself or
      the index just past an examined, accepted switch (past its file name
      for `-o`). */
  ghost predicate EndOfRun(args: seq<string>, i: nat, next: nat)
  {
    next == i || exists j: nat :: Reached(args, i, j) && Accepted(args, j) && next == j + Width(args, j)
  }

  /** Where the scan stops: at the end of the arguments or at the first
      argument it examines whose first character is not '-'; it is never the
      file name of a `-o`. Every index before that is an examined switch or
      the file name of a `-o`. */
  lemma {:induction false} ScanStopsAtPositional(args: seq<string>, i: nat, verbose: int, outfile: Option<string>)
    requires i <= |args|
    ensures ScanSwitches(args, i, verbose, outfile).Stop? ==>
              var next := ScanSwitches(args, i, verbose, outfile).next;
              i <= next <= |args| &&
              (next == |args| || !IsSwitch(args[next])) &&
              EndOfRun(args, i, next) &&
              !(i < next && Reached(args, i, next - 1) && CharAt(args[next - 1], 1) == 'o') &&
              forall j: nat :: i <= j < next ==>
                Reached(args, i, j) || (i < j && Reached(args, i, j - 1) && CharAt(args[j - 1], 1) == 'o')
    decreases |args| - i
  {
    if i < |args| && IsSwitch(args[i]) && Accepted(args, i) {
      var w := Width(args, i);
      var c := CharAt(args[i], 1);
      if c == 'v' {
        ScanStopsAtPositional(args, i + 1, 1, outfile);
      } else {
        ScanStopsAtPositional(args, i + 2, verbose, Some(args[i + 1]));
      }
      var s := ScanSwitches(args, i, verbose, outfile);
      if s.Stop? {
        assert Reached(args, i, i);
        if s.next != i + w {
          var j: nat :| Reached(args, i + w, j) && Accepted(args, j) && s.next == j + Width(args, j);
          assert Reached(args, i, j);
        }
        assert EndOfRun(args, i, s.next);
        if Reached(args, i, s.next - 1) && s.next - 1 != i {
          assert Reached(args, i + w, s.next - 1);
        }
        forall j | i <= j < s.next
          ensures Reached(args, i, j) || (i < j && Reached(args, i, j - 1) && CharAt(args[j - 1], 1) == 'o')
        {
          if j >= i + w {
            assert Reached(args, i + w, j) ==> Reached(args, i, j);
            assert i + w < j ==> Reached(args, i + w, j - 1) ==> Reached(args, i, j - 1);
          }
        }
      }
    }
  }

  /** The scan calls `usage` exactly when it examines a switch it does not
      accept, and then for that switch's reason. */
  lemma {:induction false} ScanUsageIff(args: seq<string>, i: nat, verbose: int, outfile: Option<string>)
    ensures ScanSwitches(args, i, verbose, outfile).Usage? <==>
              exists j: nat :: Reached(args, i, j) && !Accepted(args, j)
    ensures ScanSwitches(args, i, verbose, outfile).Usage? ==>
              exists j: nat :: Reached(args, i, j) && !Accepted(args, j) &&
                ScanSwitches(args, i, verbose, outfile).reason == ReasonAt(args, j)
    decreases |args| - i
  {
    if i < |args| && IsSwitch(args[i]) {
      if Accepted(args, i) {
        var w := Width(args, i);
        if CharAt(args[i], 1) == 'v' {
          ScanUsageIff(args, i + 1, 1, outfile);
        } else {
          ScanUsageIff(args, i + 2, verbose, Some(args[i + 1]));
        }
        forall j: nat | Reached(args, i, j) && !Accepted(args, j)
          ensures Reached(args, i + w, j)
        {
        }
      } else {
        assert Reached(args, i, i);
      }
    }
  }

  /** On success `verbose` is 1 exactly when the scan examined a `-v` (a
      switch whose second character is 'v'), and otherwise keeps its value. */
  lemma {:induction false} ScanVerbose(args: seq<string>, i: nat, verbose: int, outfile: Option<string>)
    ensures ScanSwitches(args, i, verbose, outfile).Stop? ==>
              ScanSwitches(args, i, verbose, outfile).verbose ==
                if exists j: nat :: Reached(args, i, j) && CharAt(args[j], 1) == 'v' then 1 else verbose
    decreases |args| - i
  {
    if i < |args| && IsSwitch(args[i]) && Accepted(args, i) {
      var w := Width(args, i);
      if CharAt(args[i], 1) == 'v' {
        ScanVerbose(args, i + 1, 1, outfile);
        assert Reached(args, i, i);
      } else {
        ScanVerbose(args, i + 2, verbose, Some(args[i + 1]));
        forall j: nat | Reached(args, i, j) && CharAt(args[j], 1) == 'v'
          ensures Reached(args, i + w, j)
        {
        }
      }
    }
  }

  /** On success `outfile` is the file name following the last `-o` the scan
      examined, even when that name starts with '-'; without any `-o` it
      keeps its value. */
  lemma {:induction false} ScanOutfile(args: seq<string>, i: nat, verbose: int, outfile: Option<string>)
    ensures ScanSwitches(args, i, verbose, outfile).Stop? ==>
              ((forall j: nat :: Reached(args, i, j) ==> CharAt(args[j], 1) != 'o') ==>
                 ScanSwitches(args, i, verbose, outfile).outfile == outfile) &&
              ((exists j: nat :: Reached(args, i, j) && CharAt(args[j], 1) == 'o') ==>
                 exists j: nat :: LastOption(args, i, j) && j + 1 < |args| &&
                   ScanSwitches(args, i, verbose, outfile).outfile == Some(args[j + 1]))
    decreases |args| - i
  {
    if i < |args| && IsSwitch(args[i]) && Accepted(args, i) {
      var w := Width(args, i);
      var s := ScanSwitches(args, i, verbose, outfile);
      if CharAt(args[i], 1) == 'v' {
        ScanOutfile(args, i + 1, 1, outfile);
        if s.Stop? {
          forall j: nat | Reached(args, i, j) && CharAt(args[j], 1) == 'o'
            ensures Reached(args, i + 1, j)
          {
          }
          if exists j: nat :: Reached(args, i, j) && CharAt(args[j], 1) == 'o' {
            var j: nat :| LastOption(args, i + 1, j) && j + 1 < |args| && s.outfile == Some(args[j + 1]);
            forall k: nat | Reached(args, i, k) && j < k < |args|
              ensures Reached(args, i + 1, k)
            {
            }
            assert LastOption(args, i, j);
          }
        }
      } else {
        ScanOutfile(args, i + 2, verbose, Some(args[i + 1]));
        assert Reached(args, i, i);
        if s.Stop? {
          if exists j: nat :: Reached(args, i + 2, j) && CharAt(args[j], 1) == 'o' {
            var j: nat :| LastOption(args, i + 2, j) && j + 1 < |args| && s.outfile == Some(args[j + 1]);
            forall k: nat | Reached(args, i, k) && j < k < |args|
              ensures Reached(args, i + 2, k)
            {
            }
            assert LastOption(args, i, j);
          } else {
            forall k: nat | Reached(args, i, k) && i < k < |args|
              ensures Reached(args, i + 2, k)
            {
            }
            assert LastOption(args, i, i);
          }
        }
      }
    }
  }

  /** Index `j` holds the last `-o` that the scan starting at `i` examines. */
  ghost predicate LastOption(args: seq<string>, i: nat, j: nat)
  {
    Reached(args, i, j) && j < |args| && CharAt(args[j], 1) == 'o' &&
    forall k: nat :: Reached(args, i, k) && j < k < |args| ==> CharAt(args[k], 1) != 'o'
  }

  /** The scan from `i` depends only on the arguments from `i` on. */
  lemma {:induction false} ScanReadsSuffix(args: seq<string>, args': seq<string>, i: nat, verbose: int, outfile: Option<string>)
    requires |args| == |args'|
    requires forall k :: i <= k < |args| ==> args[k] == args'[k]
    ensures ScanSwitches(args, i, verbose, outfile) == ScanSwitches(args', i, verbose, outfile)
    decreases |args| - i
  {
    if i < |args| && IsSwitch(args[i]) {
      var c := CharAt(args[i], 1);
      if c == 'v' {
        ScanReadsSuffix(args, args', i + 1, 1, outfile);
      } else if c == 'o' && i + 1 < |args| {
        ScanReadsSuffix(args, args', i + 2, verbose, Some(args[i + 1]));
      }
    }
  }

  /** Only the first two characters of a switch matter: replacing a switch by
      another with the same two leading characters (`-vfoo` for `-v`) changes
      nothing but the text an unknown-switch message would quote. */
  lemma {:induction false} SwitchReadsTwoChars(args: seq<string>, i: nat, b: string, verbose: int, outfile: Option<string>)
    requires i < |args| && IsSwitch(args[i])
    requires CharAt(b, 0) == '-' && CharAt(b, 1) == CharAt(args[i], 1)
    ensures CharAt(args[i], 1) in "hHvo" ==>
              ScanSwitches(args[i := b], i, verbose, outfile) == ScanSwitches(args, i, verbose, outfile)
    ensures CharAt(args[i], 1) !in "hHvo" ==>
              ScanSwitches(args, i, verbose, outfile) == Usage(UnknownSwitch(args[i])) &&
              ScanSwitches(args[i := b], i, verbose, outfile) == Usage(UnknownSwitch(b))
  {
    var args' := args[i := b];
    var c := CharAt(args[i], 1);
    if c == 'v' {
      ScanReadsSuffix(args, args', i + 1, 1, outfile);
    } else if c == 'o' && i + 1 < |args| {
      ScanReadsSuffix(args, args', i + 2, verbose, Some(args[i + 1]));
    }
  }

  /** On success with at least the program name present, the new count never
      exceeds the old one, `argv[0]` is kept, and the positional arguments
      appear in their original order right after it. */
  lemma CompactionShape(args: seq<string>, verbose: int, outfile: Option<string>)
    requires |args| >= 1
    requires ScanSwitches(args, 1, verbose, outfile).Stop?
    ensures var next := ScanSwitches(args, 1, verbose, outfile).next;
            var n := NewArgc(args, next);
            n == 1 + |args| - next && 1 <= n <= |args| &&
            |Compacted(args, next)| == |args| &&
            Compacted(args, next)[0] == args[0] &&
            Compacted(args, next)[1..n] == args[next..]
  {
    ScanStopsAtPositional(args, 1, verbose, outfile);
  }

  /** With no arguments at all (argv[0] is NULL), the filter still reports a
      count of 1. */
  lemma EmptyArgvGivesCountOne(verbose: int, outfile: Option<string>)
    ensures ScanSwitches([], 1, verbose, outfile) == Stop(1, verbose, outfile)
    ensures NewArgc([], 1) == 1 && Compacted([], 1) == []
  {
  }

  /** The behaviour of single switches at the head of the arguments. */
  lemma SwitchExamples(v: int, o: Option<string>)
    ensures ScanSwitches(["fms", "-vfoo", "in"], 1, v, o) == Stop(2, 1, o)
    ensures ScanSwitches(["fms", "-o", "-v", "in"], 1, v, o) == Stop(3, v, Some("-v"))
    ensures ScanSwitches(["fms", "-o"], 1, v, o) == Usage(MissingFilename)
    ensures ScanSwitches(["fms", "-h", "in"], 1, v, o) == Usage(Help)
    ensures ScanSwitches(["fms", "-H"], 1, v, o) == Usage(Help)
    ensures ScanSwitches(["fms", "-x"], 1, v, o) == Usage(UnknownSwitch("-x"))
    ensures ScanSwitches(["fms", "-"], 1, v, o) == Usage(UnknownSwitch("-"))
    ensures ScanSwitches(["fms", "", "-v"], 1, v, o) == Stop(1, v, o)
    ensures ScanSwitches(["fms", "in", "-v"], 1, v, o) == Stop(1, v, o)
  {
  }
}
