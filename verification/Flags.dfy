/**
 Exclusion of command-line flags: `parseExclusionFlags` and `filterExcludedFlags` of
 orchestrator/src/cmdGenerator.ts. The filter is one pass that carries a flag saying whether to drop the
 next token. The results below say, token by token and without any carried flag, which ones survive.
 */
module Flags {
  import opened Text

  /** The elements marked true, in order. */
  function Select<T>(s: seq<T>, keep: seq<bool>): (r: seq<T>)
    requires |s| == |keep|
    ensures forall x :: x in r ==> exists i :: 0 <= i < |s| && keep[i] && s[i] == x
  {
    if s == [] then []
    else
      var rest := Select(s[1..], keep[1..]);
      assert forall x :: x in rest ==> exists i :: 0 <= i < |s[1..]| && keep[1..][i] && s[1..][i] == x;
      assert forall i :: 0 <= i < |s[1..]| ==> s[1..][i] == s[i + 1] && keep[1..][i] == keep[i + 1];
      if keep[0] then [s[0]] + rest else rest
  }

  // ---- exclusions

  predicate IsExclusion(arg: string) { StartsWith(arg, "-:") }

  /** The flag a token of the form `-:flag` excludes, dashes added when left out. */
  function ExcludedFlag(arg: string): (flag: string)
    requires IsExclusion(arg)
    ensures StartsWith(flag, "--")
  {
    var flag := arg[2..];
    if StartsWith(flag, "--") then flag else "--" + flag
  }

  ghost predicate DashFlags(flags: seq<string>) {
    forall f :: f in flags ==> StartsWith(f, "--")
  }

  /** `parseExclusionFlags`: the excluded flags, each once, and the other arguments in order. */
  method ParseExclusionFlags(args: seq<string>) returns (exclusions: seq<string>, filteredArgs: seq<string>)
    ensures forall f :: f in exclusions <==>
              exists i :: 0 <= i < |args| && IsExclusion(args[i]) && f == ExcludedFlag(args[i])
    ensures DashFlags(exclusions)
    ensures forall i, j :: 0 <= i < j < |exclusions| ==> exclusions[i] != exclusions[j]
    ensures filteredArgs == Select(args, seq(|args|, i requires 0 <= i < |args| => !IsExclusion(args[i])))
  {
    exclusions, filteredArgs := [], [];
    ghost var keep := seq(|args|, i requires 0 <= i < |args| => !IsExclusion(args[i]));
    for i := 0 to |args|
      invariant forall f :: f in exclusions <==>
                  exists j :: 0 <= j < i && IsExclusion(args[j]) && f == ExcludedFlag(args[j])
      invariant forall j, k :: 0 <= j < k < |exclusions| ==> exclusions[j] != exclusions[k]
      invariant Select(args, keep) == filteredArgs + Select(args[i..], keep[i..])
    {
      var arg := args[i];
      assert args[i..][1..] == args[i + 1..] && keep[i..][1..] == keep[i + 1..];
      if IsExclusion(arg) {
        var flag := ExcludedFlag(arg);
        if flag !in exclusions {
          exclusions := exclusions + [flag];
        }
      } else {
        filteredArgs := filteredArgs + [arg];
      }
    }
  }

  /** The token is an excluded flag, alone or with its value attached. */
  ghost predicate Excluded(arg: string, flags: seq<string>) {
    exists f :: f in flags && (arg == f || StartsWith(arg, f + "="))
  }

  /** An excluded token without a value attached takes a following token that is no flag with it. */
  ghost predicate TakesNext(args: seq<string>, i: nat, flags: seq<string>)
    requires i < |args|
  {
    Excluded(args[i], flags) && '=' !in args[i] && i + 1 < |args| && !StartsWith(args[i + 1], "-")
  }

  /** The pass of the source. */
  ghost function Filter(args: seq<string>, flags: seq<string>, skip: bool): seq<string> {
    if args == [] then []
    else if skip then Filter(args[1..], flags, false)
    else if Excluded(args[0], flags) then Filter(args[1..], flags, TakesNext(args, 0, flags))
    else [args[0]] + Filter(args[1..], flags, false)
  }

  /** Token `i` survives: it is not excluded, and the one before it does not take it along. */
  ghost predicate Survives(args: seq<string>, i: nat, flags: seq<string>)
    requires i < |args|
  {
    !Excluded(args[i], flags) && !(i > 0 && TakesNext(args, i - 1, flags))
  }

  ghost function Surviving(args: seq<string>, flags: seq<string>): (keep: seq<bool>)
    ensures |keep| == |args| && forall i :: 0 <= i < |args| ==> keep[i] == Survives(args, i, flags)
  {
    seq(|args|, i requires 0 <= i < |args| => Survives(args, i, flags))
  }

  /** `filterExcludedFlags` */
  method FilterExcludedFlags(cmdArgs: seq<string>, exclusions: seq<string>) returns (filtered: seq<string>)
    ensures filtered == Filter(cmdArgs, exclusions, false)
    ensures DashFlags(exclusions) ==> filtered == Select(cmdArgs, Surviving(cmdArgs, exclusions))
  {
    if DashFlagsHold(exclusions) {
      SurvivorsAreExact(cmdArgs, exclusions);
    }
    if |exclusions| == 0 {
      NothingExcluded(cmdArgs, exclusions);
      return cmdArgs;
    }
    filtered := [];
    var skipNext := false;
    for i := 0 to |cmdArgs|
      invariant Filter(cmdArgs, exclusions, false) == filtered + Filter(cmdArgs[i..], exclusions, skipNext)
    {
      assert cmdArgs[i..][1..] == cmdArgs[i + 1..];
      if skipNext {
        skipNext := false;
        continue;
      }
      var arg := cmdArgs[i];
      var shouldExclude := false;
      var k := 0;
      while k < |exclusions|
        invariant 0 <= k <= |exclusions| && !shouldExclude && !skipNext
        invariant forall j :: 0 <= j < k ==> arg != exclusions[j] && !StartsWith(arg, exclusions[j] + "=")
      {
        if arg == exclusions[k] || StartsWith(arg, exclusions[k] + "=") {
          shouldExclude := true;
          assert exclusions[k] in exclusions;
          if '=' !in arg && i + 1 < |cmdArgs| && !StartsWith(cmdArgs[i + 1], "-") {
            skipNext := true;
          }
          break;
        }
        k := k + 1;
      }
      if !shouldExclude {
        filtered := filtered + [arg];
      }
    }
  }

  /** `DashFlags`, decided. */
  predicate DashFlagsHold(flags: seq<string>)
    ensures DashFlagsHold(flags) <==> DashFlags(flags)
  {
    forall i :: 0 <= i < |flags| ==> StartsWith(flags[i], "--")
  }

  lemma {:induction false} NothingExcluded(args: seq<string>, flags: seq<string>)
    requires forall i :: 0 <= i < |args| ==> !Excluded(args[i], flags)
    ensures Filter(args, flags, false) == args
  {
    if args != [] {
      NothingExcluded(args[1..], flags);
    }
  }

  /**
   Main result: with the flags that `ParseExclusionFlags` yields, survival is a matter of one token and
   the one before.
   */
  lemma SurvivorsAreExact(args: seq<string>, flags: seq<string>)
    requires DashFlags(flags)
    ensures Filter(args, flags, false) == Select(args, Surviving(args, flags))
  {
    SurvivorsFrom(args, flags, 0);
    assert args[0..] == args && Surviving(args, flags)[0..] == Surviving(args, flags);
  }

  lemma {:induction false} SurvivorsFrom(args: seq<string>, flags: seq<string>, i: nat)
    requires DashFlags(flags) && i <= |args|
    ensures Filter(args[i..], flags, 0 < i < |args| && TakesNext(args, i - 1, flags)) ==
            Select(args[i..], Surviving(args, flags)[i..])
    decreases |args| - i
  {
    if i < |args| {
      var rest, keep := args[i..], Surviving(args, flags);
      assert rest[1..] == args[i + 1..] && keep[i..][1..] == keep[i + 1..];
      SurvivorsFrom(args, flags, i + 1);
      if i > 0 && TakesNext(args, i - 1, flags) {
        assert !Excluded(args[i], flags);
      } else if i + 1 < |args| {
        assert TakesNext(rest, 0, flags) == TakesNext(args, i, flags);
      }
    }
  }

  /**
   A token that starts with a dash survives exactly when it is no excluded flag and does not start with one and
   an equals sign; any other token exactly when it does not follow an excluded flag that holds no equals sign.
   */
  lemma FlagsSurviveIffNotExcluded(args: seq<string>, flags: seq<string>, i: nat)
    requires DashFlags(flags) && i < |args|
    ensures "-" <= args[i] ==>
              (Survives(args, i, flags) <==> forall f :: f in flags ==> args[i] != f && !(f + "=" <= args[i]))
    ensures !("-" <= args[i]) ==>
              (Survives(args, i, flags) <==> !(i > 0 && args[i - 1] in flags && '=' !in args[i - 1]))
  {
    if i > 0 {
      forall f | f in flags ensures f + "=" <= args[i - 1] ==> '=' in args[i - 1] {
        AttachedHasEquals(args[i - 1], f);
      }
    }
  }

  lemma AttachedHasEquals(arg: string, flag: string)
    ensures flag + "=" <= arg ==> '=' in arg
  {
    if flag + "=" <= arg {
      assert arg[|flag|] == (flag + "=")[|flag|];
    }
  }

  /** An exclusion is a dash, a colon and a flag, its two dashes given or left out. */
  lemma ExclusionNames(arg: string, flag: string)
    ensures IsExclusion(arg) <==> |arg| >= 2 && arg[0] == '-' && arg[1] == ':'
    ensures IsExclusion("-:" + flag) && ExcludedFlag("-:" + flag) == if "--" <= flag then flag else "--" + flag
  {
    assert ("-:" + flag)[2..] == flag;
  }

  /** No excluded token is left. */
  lemma {:induction false} NoExcludedLeft(args: seq<string>, flags: seq<string>, skip: bool)
    ensures forall i :: 0 <= i < |Filter(args, flags, skip)| ==> !Excluded(Filter(args, flags, skip)[i], flags)
  {
    if args != [] {
      if skip {
        NoExcludedLeft(args[1..], flags, false);
      } else if Excluded(args[0], flags) {
        NoExcludedLeft(args[1..], flags, TakesNext(args, 0, flags));
      } else {
        NoExcludedLeft(args[1..], flags, false);
      }
    }
  }

  /** Filtering again changes nothing. */
  lemma FilterIsIdempotent(args: seq<string>, flags: seq<string>)
    ensures Filter(Filter(args, flags, false), flags, false) == Filter(args, flags, false)
  {
    NoExcludedLeft(args, flags, false);
    NothingExcluded(Filter(args, flags, false), flags);
  }

  /** The order in which the flags are listed does not matter. */
  lemma {:induction false} FlagOrderIsIrrelevant(args: seq<string>, flags: seq<string>, other: seq<string>, skip: bool)
    requires forall f :: f in flags <==> f in other
    ensures Filter(args, flags, skip) == Filter(args, other, skip)
  {
    if args != [] {
      assert Excluded(args[0], flags) == Excluded(args[0], other);
      if skip {
        FlagOrderIsIrrelevant(args[1..], flags, other, false);
      } else if Excluded(args[0], flags) {
        FlagOrderIsIrrelevant(args[1..], flags, other, TakesNext(args, 0, flags));
      } else {
        FlagOrderIsIrrelevant(args[1..], flags, other, false);
      }
    }
  }

  // ---- two passes

  /** An excluded token without a value attached: whichever token comes next in the pass may be its value. */
  ghost predicate Takes(arg: string, flags: seq<string>) {
    Excluded(arg, flags) && '=' !in arg
  }

  /** The pass without lookahead: `pending` says that the token before it takes a value. */
  ghost function Lazy(args: seq<string>, flags: seq<string>, pending: bool): seq<string> {
    if args == [] then []
    else if pending && !StartsWith(args[0], "-") then Lazy(args[1..], flags, false)
    else if Excluded(args[0], flags) then Lazy(args[1..], flags, Takes(args[0], flags))
    else [args[0]] + Lazy(args[1..], flags, false)
  }

  lemma {:induction false} FilterIsLazy(args: seq<string>, flags: seq<string>, pending: bool)
    ensures Lazy(args, flags, pending) == Filter(args, flags, pending && args != [] && !StartsWith(args[0], "-"))
  {
    if args != [] {
      FilterIsLazy(args[1..], flags, false);
      FilterIsLazy(args[1..], flags, Takes(args[0], flags));
    }
  }

  /** The token before position `i` takes a value. */
  ghost predicate Pending(args: seq<string>, i: nat, flags: seq<string>)
    requires i <= |args|
  {
    i > 0 && Takes(args[i - 1], flags)
  }

  /** Token `j` takes a value in the pass with `b`, and the pass with `a` leaves it there. */
  ghost predicate TakesLater(args: seq<string>, j: nat, a: seq<string>, b: seq<string>)
    requires j < |args|
  {
    Takes(args[j], b) && !Excluded(args[j], a)
  }

  /** The last token before position `i` that the pass with `a` leaves takes a value in the pass with `b`. */
  ghost predicate PendingLater(args: seq<string>, i: nat, a: seq<string>, b: seq<string>)
    requires i <= |args|
  {
    exists j :: 0 <= j < i && TakesLater(args, j, a, b) && forall k :: j < k < i ==> !Survives(args, k, a)
  }

  /**
   The pass with `a` removes everything between a flag of `b` and a plain word, at least one token, and
   leaves both: so the word becomes the flag's value.
   */
  ghost predicate BridgeAt(args: seq<string>, i: nat, a: seq<string>, b: seq<string>)
    requires i < |args|
  {
    && !StartsWith(args[i], "-") && Survives(args, i, a)
    && exists j :: 0 <= j && j + 1 < i && TakesLater(args, j, a, b) && forall k :: j < k < i ==> !Survives(args, k, a)
  }

  ghost predicate Bridge(args: seq<string>, a: seq<string>, b: seq<string>) {
    exists i :: 0 <= i < |args| && BridgeAt(args, i, a, b)
  }

  lemma PendingLaterStep(args: seq<string>, i: nat, a: seq<string>, b: seq<string>)
    requires DashFlags(b) && i < |args|
    ensures PendingLater(args, i + 1, a, b) <==>
            if Survives(args, i, a) then Takes(args[i], b) else PendingLater(args, i, a, b)
  {
    if PendingLater(args, i + 1, a, b) {
      var j :| 0 <= j < i + 1 && TakesLater(args, j, a, b) && forall k :: j < k < i + 1 ==> !Survives(args, k, a);
    }
    if PendingLater(args, i, a, b) && !Survives(args, i, a) {
      var j :| 0 <= j < i && TakesLater(args, j, a, b) && forall k :: j < k < i ==> !Survives(args, k, a);
      assert forall k :: j < k < i + 1 ==> !Survives(args, k, a);
    }
    if Survives(args, i, a) && Takes(args[i], b) {
      assert TakesLater(args, i, a, b);
    }
  }

  lemma ExcludedByEither(arg: string, a: seq<string>, b: seq<string>)
    ensures Excluded(arg, a + b) <==> Excluded(arg, a) || Excluded(arg, b)
  {
    if Excluded(arg, a) || Excluded(arg, b) {
      var f :| (f in a || f in b) && (arg == f || StartsWith(arg, f + "="));
      assert f in a + b;
    }
  }

  /** How the three passes stand to each other before token `i`. */
  lemma PassesBefore(args: seq<string>, i: nat, a: seq<string>, b: seq<string>)
    requires DashFlags(a) && DashFlags(b) && i < |args|
    ensures Pending(args, i, a) ==> Pending(args, i, a + b)
    ensures Pending(args, i, a + b) ==> Pending(args, i, a) || PendingLater(args, i, a, b)
    ensures BridgeAt(args, i, a, b) <==>
            !StartsWith(args[i], "-") && Survives(args, i, a) && PendingLater(args, i, a, b) && !Pending(args, i, a + b)
  {
    if i > 0 {
      ExcludedByEither(args[i - 1], a, b);
      if Pending(args, i, a + b) && !Pending(args, i, a) {
        assert TakesLater(args, i - 1, a, b);
      }
      if BridgeAt(args, i, a, b) {
        assert !Survives(args, i - 1, a);
      }
    }
  }

  lemma OneMore(x: string, two: seq<string>, one: seq<string>, inTwo: bool, inOne: bool)
    requires (inTwo ==> inOne) && |two| <= |one|
    ensures var shorter, longer := if inTwo then [x] + two else two, if inOne then [x] + one else one;
            |shorter| <= |longer| && (shorter == longer <==> two == one && inTwo == inOne)
  {
    assert ([x] + two)[1..] == two && ([x] + one)[1..] == one;
  }

  lemma {:induction false} TwoPassesFrom(args: seq<string>, i: nat, a: seq<string>, b: seq<string>)
    requires DashFlags(a) && DashFlags(b) && i <= |args|
    ensures var two := Lazy(Lazy(args[i..], a, Pending(args, i, a)), b, PendingLater(args, i, a, b));
            var one := Lazy(args[i..], a + b, Pending(args, i, a + b));
            && |two| <= |one|
            && (two == one <==> forall k :: i <= k < |args| ==> !BridgeAt(args, k, a, b))
    decreases |args| - i
  {
    if i < |args| {
      var x, rest, word := args[i], args[i + 1..], !StartsWith(args[i], "-");
      var pa, pb, pc := Pending(args, i, a), PendingLater(args, i, a, b), Pending(args, i, a + b);
      var two := Lazy(Lazy(rest, a, Takes(x, a)), b, PendingLater(args, i + 1, a, b));
      var one := Lazy(rest, a + b, Takes(x, a + b));
      TwoPassesFrom(args, i + 1, a, b);
      assert args[i..] == [x] + rest;
      assert (pa ==> pc) && (pc ==> pa || pb) by { PassesBefore(args, i, a, b); }
      assert PendingLater(args, i + 1, a, b) == if Survives(args, i, a) then Takes(x, b) else pb by {
        PendingLaterStep(args, i, a, b);
      }
      var inTwo := !Excluded(x, a) && !(pa && word) && !Excluded(x, b) && !(pb && word);
      var inOne := !Excluded(x, a + b) && !(pc && word);
      assert (inTwo ==> inOne) && (BridgeAt(args, i, a, b) <==> inOne && !inTwo) by {
        PassesBefore(args, i, a, b);
        ExcludedByEither(x, a, b);
      }
      OneMore(x, two, one, inTwo, inOne);
    }
  }

  /**
   Main result: filtering with one set of flags and then with another is filtering once with both
   exactly when the first pass builds no bridge from a flag of the second set to a plain word.
   */
  lemma TwoPassesAreOneIff(args: seq<string>, a: seq<string>, b: seq<string>)
    requires DashFlags(a) && DashFlags(b)
    ensures Filter(Filter(args, a, false), b, false) == Filter(args, a + b, false) <==> !Bridge(args, a, b)
  {
    TwoPassesFrom(args, 0, a, b);
    assert args[0..] == args;
    FilterIsLazy(args, a, false);
    FilterIsLazy(Filter(args, a, false), b, false);
    FilterIsLazy(args, a + b, false);
  }

  /**
   Two passes are not one pass with both sets, although a collator's command line gets two: when the
   first pass removes a token between a flag and a plain word, the second may take the word along.
   */
  lemma TwoPassesAreNotOne()
    ensures var args := ["--b", "--a=1", "v"];
            && Filter(Filter(args, ["--a"], false), ["--b"], false) == []
            && Filter(args, ["--a", "--b"], false) == ["v"]
  {
    var args := ["--b", "--a=1", "v"];
    var a, b, both := ["--a"], ["--b"], ["--a", "--b"];
    WhatIsExcluded();
    assert args[1..] == ["--a=1", "v"] && args[1..][1..] == ["v"] && ["v"][1..] == [];
    assert Filter(["v"], a, false) == ["v"] && Filter(["v"], both, false) == ["v"];
    assert Filter(["--a=1", "v"], a, false) == ["v"];
    assert Filter(["--a=1", "v"], both, false) == ["v"];
    assert ["--b", "v"][1..] == ["v"];
    assert Filter(["v"], b, true) == [];
  }

  lemma WhatIsExcluded()
    ensures !StartsWith("v", "-") && StartsWith("--a=1", "-") && '=' in "--a=1" && '=' !in "--b"
    ensures Excluded("--a=1", ["--a"]) && !Excluded("--b", ["--a"]) && !Excluded("v", ["--a"])
    ensures Excluded("--b", ["--b"]) && !Excluded("v", ["--b"])
    ensures Excluded("--b", ["--a", "--b"]) && Excluded("--a=1", ["--a", "--b"]) && !Excluded("v", ["--a", "--b"])
  {
    assert "v"[0] == 'v' && "-"[0] == '-' && "--a=1"[0] == '-' && "--a=1"[3] == '=';
    assert "--a=1"[..1] == "-";
    assert "--a" + "=" == "--a=" && "--b" + "=" == "--b=";
    assert "--b"[2] == 'b' && "--a"[2] == 'a' && StartsWith("--a=1", "--a=");
    assert ["--a"][0] == "--a" && ["--b"][0] == "--b";
    assert ["--a", "--b"][0] == "--a" && ["--a", "--b"][1] == "--b";
  }
}
