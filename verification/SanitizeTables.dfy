/** What `sanitizeArgs` of orchestrator/src/configGenerator.ts drops with the tool's own tables, flag by flag. */
module SanitizeTables {
  import opened Wrappers
  import opened Sanitize

  /** The tables of orchestrator/src/constants.ts, with nothing added. */
  function Tool(): Tables { Augmented(map[]) }

  // ---- one argument at a time

  lemma FirstStays(arg: string, rest: seq<string>, t: Tables, context: Option<Context>)
    requires arg != "--" && !Removable(arg, t, context)
    ensures Sanitized([arg] + rest, t, context) == [arg] + Sanitized(rest, t, context)
  {
    FirstOfHead(arg, rest, t, context);
  }

  lemma FirstGoes(arg: string, rest: seq<string>, t: Tables, context: Option<Context>)
    requires arg != "--" && Removable(arg, t, context) && !TwoPart(arg, t, context)
    ensures Sanitized([arg] + rest, t, context) == Sanitized(rest, t, context)
  {
    FirstOfHead(arg, rest, t, context);
  }

  lemma FirstTwoGo(arg: string, value: string, rest: seq<string>, t: Tables, context: Option<Context>)
    requires arg != "--" && TwoPart(arg, t, context) && value != "--"
    ensures Sanitized([arg] + ([value] + rest), t, context) == Sanitized(rest, t, context)
  {
    var more, n := [value] + rest, BeforeSeparator(rest);
    FirstOfHead(arg, more, t, context);
    assert more[1..] == rest && BeforeSeparator(more) == n + 1;
    assert more[..n + 1][1..] == rest[..n] && more[n + 1..] == rest[n..];
  }

  /** The pass over an argument and the part before the separator. */
  lemma FirstOfHead(arg: string, rest: seq<string>, t: Tables, context: Option<Context>)
    requires arg != "--"
    ensures var n := BeforeSeparator(rest);
            Sanitized([arg] + rest, t, context) ==
            (if Removable(arg, t, context) then Pass(rest[..n], t, context, TwoPart(arg, t, context))
             else [arg] + Pass(rest[..n], t, context, false)) + rest[n..]
  {
    var all, n := [arg] + rest, BeforeSeparator(rest);
    assert all[1..] == rest && BeforeSeparator(all) == n + 1;
    var head := all[..n + 1];
    assert head == [arg] + rest[..n] && head[1..] == rest[..n] && all[n + 1..] == rest[n..];
  }

  // ---- the table

  /** Arguments that come with a value. */
  const WITH_VALUE: set<string> := {"port", "ws-port", "rpc-port", "prometheus-port", "node-key", "d", "base-path"}

  /** Arguments that stand alone. */
  const ALONE: set<string> :=
    {"alice", "bob", "charlie", "dave", "eve", "ferdie", "one", "two", "prometheus-external"}

  /** An argument is listed by its name; what the caller adds comes before the tool's own entries. */
  lemma WhatIsListed(arg: string, extra: map<string, int>)
    ensures Listed(arg, Augmented(extra)) <==>
            if ArgName(arg) in extra then extra[ArgName(arg)] != 0 else ArgName(arg) in WITH_VALUE + ALONE
  {
  }

  /** Whose value goes too. */
  lemma WhoseValueGoes(arg: string, extra: map<string, int>, context: Option<Context>)
    ensures TwoPart(arg, Augmented(extra), context) <==>
            && Removable(arg, Augmented(extra), context)
            && if ArgName(arg) in extra then extra[ArgName(arg)] == 2 else ArgName(arg) in WITH_VALUE
  {
  }

  /** `-d`, or two dashes and the name. */
  predicate Spelled(arg: string, name: string) {
    NoPairs(name) && (arg == "--" + name || (arg == "-d" && name == "d"))
  }

  lemma SpelledName(arg: string, name: string)
    requires Spelled(arg, name) && name != ""
    ensures ArgName(arg) == name && arg != "--"
  {
    DashesDoNotMatter(name);
    assert |"--" + name| > 2;
  }

  /** A listed flag with a value is dropped together with it, `-d` among them. */
  lemma FlagAndValueDropped(
      arg: string, name: string, value: string, rest: seq<string>, context: Option<Context>)
    requires Spelled(arg, name) && name in WITH_VALUE && value != "--"
    ensures Sanitized([arg] + ([value] + rest), Tool(), context) == Sanitized(rest, Tool(), context)
  {
    SpelledName(arg, name);
    assert name !in DEV_ACCOUNTS;
    FirstTwoGo(arg, value, rest, Tool(), context);
  }

  /** A development account's flag is dropped, unless a validator of that name is concerned: then it stays. */
  lemma AccountDroppedUnlessOwn(name: string, rest: seq<string>, context: Option<Context>)
    requires name in {"alice", "bob", "charlie", "dave", "eve", "ferdie", "one", "two"} && NoPairs(name)
    ensures Sanitized(["--" + name] + rest, Tool(), context) ==
            if context.Some? && context.value.isValidator && context.value.nodeName == name
            then ["--" + name] + Sanitized(rest, Tool(), context) else Sanitized(rest, Tool(), context)
  {
    SpelledName("--" + name, name);
    AccountStandsAlone(name);
    if Exempt("--" + name, Tool(), context) {
      FirstStays("--" + name, rest, Tool(), context);
    } else {
      FirstGoes("--" + name, rest, Tool(), context);
    }
  }

  lemma AccountStandsAlone(name: string)
    requires name in {"alice", "bob", "charlie", "dave", "eve", "ferdie", "one", "two"}
    ensures name in DEV_ACCOUNTS && name in ARGS_TO_REMOVE && ARGS_TO_REMOVE[name] == 1
  {
  }

  /** The other flag that stands alone is dropped whoever is concerned. */
  lemma PrometheusDropped(rest: seq<string>, context: Option<Context>)
    ensures Sanitized(["--prometheus-external"] + rest, Tool(), context) == Sanitized(rest, Tool(), context)
  {
    PrometheusStandsAlone();
    SpelledName("--prometheus-external", "prometheus-external");
    FirstGoes("--prometheus-external", rest, Tool(), context);
  }

  lemma PrometheusStandsAlone()
    ensures Spelled("--prometheus-external", "prometheus-external")
    ensures "prometheus-external" in ARGS_TO_REMOVE && ARGS_TO_REMOVE["prometheus-external"] == 1
    ensures "prometheus-external" !in DEV_ACCOUNTS
  {
    assert "prometheus-external"[10] == '-';
    assert "--prometheus-external" == "--" + "prometheus-external";
  }

  /** Every other argument stays. */
  lemma OthersStay(arg: string, rest: seq<string>, context: Option<Context>)
    requires arg != "--" && ArgName(arg) !in WITH_VALUE + ALONE
    ensures Sanitized([arg] + rest, Tool(), context) == [arg] + Sanitized(rest, Tool(), context)
  {
    FirstStays(arg, rest, Tool(), context);
  }
}
