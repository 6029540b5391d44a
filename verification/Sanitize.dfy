/**
 `sanitizeArgs` of orchestrator/src/configGenerator.ts with the tables of orchestrator/src/constants.ts:
 arguments that the tool sets itself are dropped, with their values, up to a separator `--`.
 */
module Sanitize {
  import opened Wrappers
  import opened Text
  import opened Flags

  /** How many tokens to drop for an argument, itself or itself and its value; and the development accounts. */
  datatype Tables = Tables(remove: map<string, int>, devAccounts: set<string>)

  const ARGS_TO_REMOVE: map<string, int> := map[
    "alice" := 1, "bob" := 1, "charlie" := 1, "dave" := 1, "eve" := 1, "ferdie" := 1, "one" := 1, "two" := 1,
    "port" := 2, "prometheus-external" := 1, "ws-port" := 2, "rpc-port" := 2, "prometheus-port" := 2,
    "node-key" := 2, "d" := 2, "base-path" := 2]

  const DEV_ACCOUNTS: set<string> := {"alice", "bob", "charlie", "dave", "eve", "ferdie", "one", "two"}

  datatype Context = Context(nodeName: string, isValidator: bool)

  /** `arg.replace(/--/g, "")` */
  function WithoutDashPairs(s: string): string {
    if |s| >= 2 && s[0] == '-' && s[1] == '-' then WithoutDashPairs(s[2..])
    else if s == "" then ""
    else [s[0]] + WithoutDashPairs(s[1..])
  }

  function ArgName(arg: string): string { if arg == "-d" then "d" else WithoutDashPairs(arg) }

  /** The tables of the tool with those of the caller added. */
  function Augmented(extra: map<string, int>): Tables { Tables(ARGS_TO_REMOVE + extra, DEV_ACCOUNTS) }

  /** The table lists the argument; a zero lists nothing. */
  predicate Listed(arg: string, t: Tables) {
    ArgName(arg) in t.remove && t.remove[ArgName(arg)] != 0
  }

  /** The flag of the development account a validator is named after stays. */
  predicate Exempt(arg: string, t: Tables, context: Option<Context>) {
    && context.Some? && ArgName(arg) == context.value.nodeName
    && context.value.isValidator && ArgName(arg) in t.devAccounts
  }

  predicate Removable(arg: string, t: Tables, context: Option<Context>) {
    Listed(arg, t) && !Exempt(arg, t, context)
  }

  predicate TwoPart(arg: string, t: Tables, context: Option<Context>) {
    Removable(arg, t, context) && t.remove[ArgName(arg)] == 2
  }

  /** Everything before the first separator. */
  function BeforeSeparator(args: seq<string>): (n: nat)
    ensures n <= |args| && "--" !in args[..n] && (n < |args| ==> args[n] == "--")
  {
    if args == [] || args[0] == "--" then 0 else 1 + BeforeSeparator(args[1..])
  }

  /** The pass of the source over the part before the separator. */
  function Pass(args: seq<string>, t: Tables, context: Option<Context>, removeNext: bool): seq<string> {
    if args == [] then []
    else if removeNext then Pass(args[1..], t, context, false)
    else if Removable(args[0], t, context) then Pass(args[1..], t, context, TwoPart(args[0], t, context))
    else [args[0]] + Pass(args[1..], t, context, false)
  }

  function Sanitized(args: seq<string>, t: Tables, context: Option<Context>): seq<string> {
    var n := BeforeSeparator(args);
    Pass(args[..n], t, context, false) + args[n..]
  }

  /** Token `i` is the value of the two-part argument before it, which is not itself such a value. */
  ghost predicate IsValue(args: seq<string>, i: nat, t: Tables, context: Option<Context>)
    requires i < |args|
  {
    i > 0 && !IsValue(args, i - 1, t, context) && TwoPart(args[i - 1], t, context)
  }

  ghost predicate Stays(args: seq<string>, i: nat, t: Tables, context: Option<Context>)
    requires i < |args|
  {
    !IsValue(args, i, t, context) && !Removable(args[i], t, context)
  }

  ghost function Staying(args: seq<string>, t: Tables, context: Option<Context>): (keep: seq<bool>)
    ensures |keep| == |args| && forall i :: 0 <= i < |args| ==> keep[i] == Stays(args, i, t, context)
  {
    seq(|args|, i requires 0 <= i < |args| => Stays(args, i, t, context))
  }

  // ---- the source

  /** `args.indexOf("--")`, or the length. */
  method SeparatorIndex(args: seq<string>) returns (n: nat)
    ensures n == BeforeSeparator(args)
  {
    n := 0;
    while n < |args| && args[n] != "--"
      invariant n <= |args| && BeforeSeparator(args) == n + BeforeSeparator(args[n..])
    {
      assert args[n..][1..] == args[n + 1..];
      n := n + 1;
    }
  }

  /**
   `sanitizeArgs`. From the separator on nothing changes; before it exactly those tokens stay that are
   neither removable nor the value of a two-part argument.
   */
  method SanitizeArgs(args: seq<string>, extra: map<string, int>, context: Option<Context>)
      returns (filtered: seq<string>)
    ensures filtered == Sanitized(args, Augmented(extra), context)
    ensures var n := BeforeSeparator(args);
            filtered == Select(args[..n], Staying(args[..n], Augmented(extra), context)) + args[n..]
  {
    filtered := SanitizeWith(args, Augmented(extra), context);
  }

  method SanitizeWith(args: seq<string>, t: Tables, context: Option<Context>) returns (filtered: seq<string>)
    ensures filtered == Sanitized(args, t, context)
    ensures var n := BeforeSeparator(args);
            filtered == Select(args[..n], Staying(args[..n], t, context)) + args[n..]
  {
    var n := SeparatorIndex(args);
    filtered := FilterHead(args[..n], t, context);
    StayingIsExact(args[..n], t, context);
    filtered := filtered + args[n..];
  }

  /** The filter callback with its flag `removeNext`. */
  method FilterHead(head: seq<string>, t: Tables, context: Option<Context>) returns (filtered: seq<string>)
    ensures filtered == Pass(head, t, context, false)
  {
    var removeNext := false;
    filtered := [];
    for i := 0 to |head|
      invariant Pass(head, t, context, false) == filtered + Pass(head[i..], t, context, removeNext)
    {
      assert head[i..][1..] == head[i + 1..];
      var arg := head[i];
      if removeNext {
        removeNext := false;
        continue;
      }
      ghost var rest := Pass(head[i + 1..], t, context, false);
      assert filtered + ([arg] + rest) == filtered + [arg] + rest;
      if Listed(arg, t) {
        if Exempt(arg, t, context) {
          filtered := filtered + [arg];
        } else {
          removeNext := t.remove[ArgName(arg)] == 2;
        }
      } else {
        filtered := filtered + [arg];
      }
    }
  }

  // ---- results

  lemma StayingIsExact(args: seq<string>, t: Tables, context: Option<Context>)
    ensures Pass(args, t, context, false) == Select(args, Staying(args, t, context))
  {
    StayingFrom(args, t, context, 0);
    assert args[0..] == args && Staying(args, t, context)[0..] == Staying(args, t, context);
  }

  lemma {:induction false} StayingFrom(args: seq<string>, t: Tables, context: Option<Context>, i: nat)
    requires i <= |args|
    ensures Pass(args[i..], t, context, i < |args| && IsValue(args, i, t, context)) ==
            Select(args[i..], Staying(args, t, context)[i..])
    decreases |args| - i
  {
    if i < |args| {
      var rest, keep := args[i..], Staying(args, t, context);
      assert rest[1..] == args[i + 1..] && keep[i..][1..] == keep[i + 1..];
      StayingFrom(args, t, context, i + 1);
    }
  }

  /** No removable token is left before the separator. */
  lemma {:induction false} NoRemovableLeft(args: seq<string>, t: Tables, context: Option<Context>, removeNext: bool)
    ensures forall x :: x in Pass(args, t, context, removeNext) ==> !Removable(x, t, context)
  {
    if args != [] {
      var next := !removeNext && TwoPart(args[0], t, context);
      NoRemovableLeft(args[1..], t, context, next);
      assert forall x :: x in Pass(args, t, context, removeNext) ==>
               x in Pass(args[1..], t, context, next) || (x == args[0] && !Removable(x, t, context));
    }
  }

  lemma {:induction false} NothingRemovable(args: seq<string>, t: Tables, context: Option<Context>)
    requires forall i :: 0 <= i < |args| ==> !Removable(args[i], t, context)
    ensures Pass(args, t, context, false) == args
  {
    if args != [] {
      NothingRemovable(args[1..], t, context);
    }
  }

  lemma {:induction false} SeparatorStays(head: seq<string>, tail: seq<string>)
    requires "--" !in head && (tail == [] || tail[0] == "--")
    ensures BeforeSeparator(head + tail) == |head|
  {
    if head == [] {
      assert head + tail == tail && BeforeSeparator(tail) == 0;
    } else {
      assert (head + tail)[0] == head[0] && head[0] in head;
      assert (head + tail)[1..] == head[1..] + tail;
      SeparatorStays(head[1..], tail);
    }
  }

  /** Sanitizing again, with the same tables and context, changes nothing. */
  lemma SanitizeIsIdempotent(args: seq<string>, t: Tables, context: Option<Context>)
    ensures Sanitized(Sanitized(args, t, context), t, context) == Sanitized(args, t, context)
  {
    var n := BeforeSeparator(args);
    var head, tail := Pass(args[..n], t, context, false), args[n..];
    StayingIsExact(args[..n], t, context);
    SeparatorStays(head, tail);
    assert (head + tail)[..|head|] == head && (head + tail)[|head|..] == tail;
    NoRemovableLeft(args[..n], t, context, false);
    NothingRemovable(head, t, context);
  }

  /**
   What is left before the separator is listed in no table, except the development account's own flag
   for a validator of that name.
   */
  lemma OnlyTheOwnAccountIsListed(args: seq<string>, t: Tables, context: Option<Context>, arg: string)
    requires arg in Sanitized(args, t, context)[..BeforeSeparator(Sanitized(args, t, context))]
    ensures Listed(arg, t) ==>
              && context.Some? && context.value.isValidator
              && context.value.nodeName == ArgName(arg) && ArgName(arg) in t.devAccounts
  {
    var n := BeforeSeparator(args);
    var head, tail := Pass(args[..n], t, context, false), args[n..];
    StayingIsExact(args[..n], t, context);
    SeparatorStays(head, tail);
    assert (head + tail)[..|head|] == head;
    NoRemovableLeft(args[..n], t, context, false);
  }

  /** No two dashes in a row. */
  predicate NoPairs(name: string) {
    forall i :: 0 <= i < |name| - 1 ==> !(name[i] == '-' && name[i + 1] == '-')
  }

  /** Pairs of dashes go out from the left; a text without any stays. */
  lemma {:induction false} PairsGo(a: string, b: string)
    requires NoPairs(a) && (a != "" ==> a[|a| - 1] != '-')
    ensures WithoutDashPairs(a) == a
    ensures WithoutDashPairs(a + ("--" + b)) == a + WithoutDashPairs(b)
  {
    if a == "" {
      assert a + ("--" + b) == "--" + b && ("--" + b)[2..] == b;
    } else {
      var whole := a + ("--" + b);
      assert whole[0] == a[0] && whole[1..] == a[1..] + ("--" + b);
      assert whole[1] == if |a| > 1 then a[1] else '-';
      PairsGo(a[1..], b);
      assert WithoutDashPairs(whole) == [a[0]] + WithoutDashPairs(whole[1..]);
      assert WithoutDashPairs(a) == [a[0]] + WithoutDashPairs(a[1..]);
      assert [a[0]] + (a[1..] + WithoutDashPairs(b)) == a + WithoutDashPairs(b);
    }
  }

  lemma {:induction false} NoPairsStay(name: string)
    requires NoPairs(name)
    ensures WithoutDashPairs(name) == name
  {
    if name != "" {
      NoPairsStay(name[1..]);
    }
  }

  /** The name alone is enough: with or without leading dashes a listed argument is dropped; `-d` is one of them. */
  lemma DashesDoNotMatter(name: string)
    requires NoPairs(name)
    ensures ArgName("--" + name) == name
    ensures ArgName(name) == if name == "-d" then "d" else name
  {
    NoPairsStay(name);
    assert ("--" + name)[2..] == name && |"--" + name| >= 2;
    assert ("--" + name) != "-d" by { assert ("--" + name)[1] == '-'; }
  }
}
