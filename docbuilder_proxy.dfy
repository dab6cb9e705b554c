/**
 * The command proxy (docbuilder_proxy.py): reading `host` and `command` from the contents of
 * the configuration file, assembling the remote command line from the program arguments,
 * choosing between preflight mode and command mode, and the preflight checks with their single
 * retry.
 *
 * The outcomes of the external commands (`vagrant version`, `vboxmanage --version`,
 * `vagrant up`, `vagrant ssh ... -c id`), the box id and status, and the configuration file
 * (its contents, or the error number of a failed open) are inputs here.
 */
module DocbuilderProxy {
  import opened Strings

  // ---------------------------------------------------------------------------------------
  // read_config

  /** The configuration file as the program finds it: readable text, or an open that failed. */
  datatype ConfigFile = Unreadable(errno: int) | Text(contents: string)

  datatype Config = Config(host: string, command: string)

  /** A result, or the exit code of the `print_exit` that ends the process instead. */
  datatype Outcome<T> = Value(value: T) | ExitWith(code: int)

  /** `\s` of a Python 2 regular expression over a byte string. */
  predicate IsSpace(c: char) {
    c == ' ' || c == '\t' || c == '\n' || c == '\r' || c == 11 as char || c == 12 as char
  }

  /** `\s?`: the position after at most one whitespace character at `j`. */
  function SkipSpace(s: string, j: nat): (k: nat)
    requires j <= |s|
    ensures j <= k <= |s| && k <= j + 1
    ensures k == j + 1 <==> j < |s| && IsSpace(s[j])
  {
    if j < |s| && IsSpace(s[j]) then j + 1 else j
  }

  /** `v` is what `(.*)` captures from position `k` of `s`: all characters up to the next newline. */
  predicate LineAt(s: string, k: nat, v: string) {
    && k + |v| <= |s|
    && s[k..k + |v|] == v
    && '\n' !in v
    && (k + |v| == |s| || s[k + |v|] == '\n')
  }

  /** A capture is empty exactly at a newline or at the end; otherwise it is one character longer than the next. */
  lemma LineAtStep(s: string, k: nat, v: string)
    requires LineAt(s, k, v)
    ensures |v| == 0 <==> k == |s| || s[k] == '\n'
    ensures |v| > 0 ==> v[0] == s[k] && LineAt(s, k + 1, v[1..])
  {
    assert |v| > 0 ==> v[0] == s[k..k + |v|][0] == s[k];
    assert |v| > 0 ==> v[1..] == s[k + 1..k + |v|];
  }

  /** `(.*)` matched at position `k`. */
  function TakeLine(s: string, k: nat): (v: string)
    requires k <= |s|
    ensures LineAt(s, k, v)
    decreases |s| - k
  {
    if k == |s| || s[k] == '\n' then ""
    else [s[k]] + TakeLine(s, k + 1)
  }

  /** The capture at a position is unique: it is the one `TakeLine` computes. */
  lemma {:induction false} LineAtUnique(s: string, k: nat, v: string)
    requires LineAt(s, k, v)
    ensures TakeLine(s, k) == v
    decreases |s| - k
  {
    LineAtStep(s, k, v);
    if |v| > 0 {
      LineAtUnique(s, k + 1, v[1..]);
      assert v == [v[0]] + v[1..];
    }
  }

  /**
   * `re.findall(key + r':\s?(.*)', contents)[0]`: the first match is at the leftmost occurrence of
   * `key:` (the key is not anchored to the start of a line); its capture skips at most one
   * whitespace character, possibly a newline, and runs to the end of that line.
   */
  function FindValue(contents: string, key: string): (r: Option<string>)
    ensures r.None? <==> !Contains(contents, key + ":")
    ensures r.Some? ==>
      var i := Find(contents, key + ":");
      0 <= i && LineAt(contents, SkipSpace(contents, i + |key| + 1), r.value)
  {
    var i := Find(contents, key + ":");
    if i == -1 then None
    else Some(TakeLine(contents, SkipSpace(contents, i + |key| + 1)))
  }

  /**
   * `read_config`: exits with the error number when the file cannot be opened, and with -1 when
   * either key is missing; otherwise returns both values, neither of which holds a newline.
   */
  function ReadConfig(file: ConfigFile): (r: Outcome<Config>)
    ensures file.Unreadable? ==> r == ExitWith(file.errno)
    ensures file.Text? ==>
      (r.Value? <==> Contains(file.contents, "host:") && Contains(file.contents, "command:"))
    ensures file.Text? && r.ExitWith? ==> r.code == -1
    ensures r.Value? ==> '\n' !in r.value.host && '\n' !in r.value.command
  {
    assert "host" + ":" == "host:" && "command" + ":" == "command:";
    match file
    case Unreadable(errno) => ExitWith(errno)
    case Text(contents) =>
      match (FindValue(contents, "host"), FindValue(contents, "command"))
      case (Some(host), Some(command)) => Value(Config(host, command))
      case _ => ExitWith(-1)
  }

  lemma SliceHead(s: string, k: nat, n: nat)
    ensures k < n <= |s| ==> s[k..n][0] == s[k]
  {
  }

  /** Any occurrence with nothing like it before is the one `find` returns. */
  lemma FindLeftmost(s: string, pat: string, i: nat)
    requires OccursAt(s, pat, i)
    requires forall k :: 0 <= k < i ==> !OccursAt(s, pat, k)
    ensures Find(s, pat) == i
  {
  }

  /** Where the first character of the pattern does not appear earlier, the occurrence is the first. */
  lemma FindFirstChar(s: string, pat: string, i: nat)
    requires OccursAt(s, pat, i) && |pat| > 0 && pat[0] !in s[..i]
    ensures Find(s, pat) == i
  {
    forall k | 0 <= k < i ensures !OccursAt(s, pat, k) {
      SliceHead(s, k, k + |pat|);
      assert s[..i][k] == s[k];
    }
    FindLeftmost(s, pat, i);
  }

  /** The value of a key, given where its first occurrence is and what the line holds. */
  lemma FindValueIs(contents: string, key: string, i: nat, v: string)
    requires Find(contents, key + ":") == i
    requires LineAt(contents, SkipSpace(contents, i + |key| + 1), v)
    ensures FindValue(contents, key) == Some(v)
  {
    LineAtUnique(contents, SkipSpace(contents, i + |key| + 1), v);
  }

  /** Both values found: the configuration is returned. */
  lemma ReadConfigIs(contents: string, host: string, command: string)
    requires FindValue(contents, "host") == Some(host)
    requires FindValue(contents, "command") == Some(command)
    ensures ReadConfig(Text(contents)) == Value(Config(host, command))
  {
  }

  /** A configuration file in the documented shape. */
  function Render(host: string, command: string): string {
    "host: " + host + "\n" + "command: " + command + "\n"
  }

  /** In the rendered file the first `command:` is the one on the second line, unless the host holds one. */
  lemma {:induction false} CommandKeyFirstAt(host: string, command: string)
    requires '\n' !in host && !Contains(host, "command:")
    ensures Find(Render(host, command), "command:") == |host| + 7
  {
    var s := Render(host, command);
    var p := |host| + 7;
    var pat := "command:";
    assert s[..6] == "host: " && s[6..6 + |host|] == host && s[6 + |host|] == '\n';
    assert s[p..p + 8] == pat;
    forall k | 0 <= k < p ensures !OccursAt(s, pat, k) {
      if k < 6 {
        assert s[k..k + 8][0] == s[k] == s[..6][k];
      } else if k + 8 <= 6 + |host| {
        assert host[k - 6..k - 6 + 8] == s[k..k + 8];
        assert !OccursAt(host, pat, k - 6);
      } else {
        assert s[k..k + 8][6 + |host| - k] == s[6 + |host|];
      }
    }
    FindLeftmost(s, pat, p);
  }

  /**
   * Reading back a rendered file gives the values written, leading spaces beyond the one after
   * the colon included, provided neither value spans lines and the host value does not itself
   * contain `command:`.
   */
  lemma {:induction false} ReadRendered(host: string, command: string)
    requires '\n' !in host && '\n' !in command && !Contains(host, "command:")
    ensures ReadConfig(Text(Render(host, command))) == Value(Config(host, command))
  {
    var s := Render(host, command);
    var p := |host| + 7;
    assert Find(s, "host:") == 0 by {
      assert s[0..5] == "host:";
      FindLeftmost(s, "host:", 0);
    }
    assert LineAt(s, 6, host) by {
      assert s[6..6 + |host|] == host && s[6 + |host|] == '\n';
    }
    assert s[5] == ' ';
    assert "host" + ":" == "host:";
    FindValueIs(s, "host", 0, host);
    CommandKeyFirstAt(host, command);
    assert LineAt(s, p + 9, command) by {
      assert s[p + 9..p + 9 + |command|] == command && s[p + 9 + |command|] == '\n';
    }
    assert s[p + 8] == ' ';
    assert "command" + ":" == "command:";
    assert SkipSpace(s, p + |"command"| + 1) == p + 9;
    FindValueIs(s, "command", p, command);
    ReadConfigIs(s, host, command);
  }

  /** A line between `a` and a newline (or the end) is what is captured after `a`. */
  lemma LineBetween(a: string, v: string, b: string)
    requires '\n' !in v && (b == [] || b[0] == '\n')
    ensures LineAt(a + v + b, |a|, v)
  {
    var s := a + v + b;
    assert s[|a|..|a| + |v|] == v;
    assert b != [] ==> s[|a| + |v|] == b[0];
  }

  /** A key whose first character does not occur in `a` is first found right after `a`. */
  lemma KeyAfter(a: string, key: string, b: string)
    requires |key| > 0 && key[0] !in a
    ensures Find(a + key + b, key) == |a|
  {
    var s := a + key + b;
    assert s[..|a|] == a && s[|a|..|a| + |key|] == key;
    FindFirstChar(s, key, |a|);
  }

  lemma GhostHostKey()
    ensures Find("ghost: a\nhost: b\ncommand: c", "host:") == 1
  {
    assert "ghost: a\nhost: b\ncommand: c" == "g" + "host:" + " a\nhost: b\ncommand: c";
    KeyAfter("g", "host:", " a\nhost: b\ncommand: c");
  }

  lemma GhostHostLine()
    ensures var s := "ghost: a\nhost: b\ncommand: c"; s[6] == ' ' && LineAt(s, 7, "a")
  {
    assert "ghost: a\nhost: b\ncommand: c" == "ghost: " + "a" + "\nhost: b\ncommand: c";
    LineBetween("ghost: ", "a", "\nhost: b\ncommand: c");
  }

  lemma GhostCommandKey()
    ensures Find("ghost: a\nhost: b\ncommand: c", "command:") == 17
  {
    assert "ghost: a\nhost: b\ncommand: c" == "ghost: a\nhost: b\n" + "command:" + " c";
    KeyAfter("ghost: a\nhost: b\n", "command:", " c");
  }

  lemma GhostCommandLine()
    ensures var s := "ghost: a\nhost: b\ncommand: c"; s[25] == ' ' && LineAt(s, 26, "c")
  {
    assert "ghost: a\nhost: b\ncommand: c" == "ghost: a\nhost: b\ncommand: " + "c" + "";
    LineBetween("ghost: a\nhost: b\ncommand: ", "c", "");
  }

  /** The key is not anchored to the start of a line: `ghost:` supplies the host. */
  lemma GhostKeyMatches()
    ensures ReadConfig(Text("ghost: a\nhost: b\ncommand: c")) == Value(Config("a", "c"))
  {
    var s := "ghost: a\nhost: b\ncommand: c";
    GhostHostKey();
    GhostHostLine();
    GhostCommandKey();
    GhostCommandLine();
    assert "host" + ":" == "host:" && "command" + ":" == "command:";
    FindValueIs(s, "host", 1, "a");
    FindValueIs(s, "command", 17, "c");
    ReadConfigIs(s, "a", "c");
  }

  lemma EndOfLineHostKey()
    ensures Find("host:\n  box\ncommand: make", "host:") == 0
  {
    assert "host:\n  box\ncommand: make" == "" + "host:" + "\n  box\ncommand: make";
    KeyAfter("", "host:", "\n  box\ncommand: make");
  }

  lemma EndOfLineHostLine()
    ensures var s := "host:\n  box\ncommand: make"; s[5] == '\n' && LineAt(s, 6, "  box")
  {
    assert "host:\n  box\ncommand: make" == "host:\n" + "  box" + "\ncommand: make";
    LineBetween("host:\n", "  box", "\ncommand: make");
  }

  lemma EndOfLineCommandKey()
    ensures Find("host:\n  box\ncommand: make", "command:") == 12
  {
    assert "host:\n  box\ncommand: make" == "host:\n  box\n" + "command:" + " make";
    KeyAfter("host:\n  box\n", "command:", " make");
  }

  lemma EndOfLineCommandLine()
    ensures var s := "host:\n  box\ncommand: make"; s[20] == ' ' && LineAt(s, 21, "make")
  {
    assert "host:\n  box\ncommand: make" == "host:\n  box\ncommand: " + "make" + "";
    LineBetween("host:\n  box\ncommand: ", "make", "");
  }

  /** `\s?` may consume the newline after `host:`: the next line is the value, leading spaces kept. */
  lemma KeyAtEndOfLine()
    ensures ReadConfig(Text("host:\n  box\ncommand: make")) == Value(Config("  box", "make"))
  {
    var s := "host:\n  box\ncommand: make";
    EndOfLineHostKey();
    EndOfLineHostLine();
    EndOfLineCommandKey();
    EndOfLineCommandLine();
    assert "host" + ":" == "host:" && "command" + ":" == "command:";
    FindValueIs(s, "host", 0, "  box");
    FindValueIs(s, "command", 12, "make");
    ReadConfigIs(s, "  box", "make");
  }

  /** A readable file that lacks either key ends the program with -1. */
  lemma MissingKeyExits(contents: string)
    requires !Contains(contents, "host:") || !Contains(contents, "command:")
    ensures ReadConfig(Text(contents)) == ExitWith(-1)
  {
  }

  // ---------------------------------------------------------------------------------------
  // main: mode selection and command assembly

  /** Exactly one argument, containing `check` anywhere, selects the preflight checks. */
  predicate IsPreflight(options: seq<string>) {
    |options| == 1 && Contains(options[0], "check")
  }

  /** The configured command, followed by the arguments joined by single spaces when there are any. */
  function AssembleCommand(command: string, options: seq<string>): (r: string)
    ensures options == [] ==> r == command
    ensures options != [] ==> StartsWith(r, command + " ")
  {
    if |options| == 0 then command
    else command + " " + Join(" ", options)
  }

  /** Arguments without spaces can be split back out of the assembled command line. */
  lemma OptionsRecoverable(command: string, options: seq<string>)
    requires |options| >= 1
    requires forall i :: 0 <= i < |options| ==> ' ' !in options[i]
    ensures var r := AssembleCommand(command, options);
      StartsWith(r, command + " ") && Split(r[|command| + 1..], ' ') == options
  {
    var r := AssembleCommand(command, options);
    assert r == (command + " ") + Join([' '], options);
    assert r[|command| + 1..] == Join([' '], options);
    SplitJoin(options, ' ');
  }

  // ---------------------------------------------------------------------------------------
  // preflight_checks

  /**
   * What one round of the checks finds: the box status, and whether `up` and `ssh` fail. The box
   * id is only passed on to those commands, whose outcomes are given here.
   */
  datatype Round = Round(status: string, upFails: bool, sshFails: bool)

  /** The outcomes of the commands the checks run: the tool probes, then one or two rounds. */
  datatype Environment = Environment(vagrantFails: bool, vboxFails: bool,
                                     first: Round, second: Round, config: ConfigFile)

  /** The steps the checks take, in order. */
  datatype Step = CheckVagrant | CheckVirtualBox | QueryStatus | StartBox | Connect | ReadLocalConfig

  /** The exit path the checks end on; every path ends the process. */
  datatype PreflightExit = NoVagrant | NoVirtualBox | BoxDown | Unreachable | BadConfig(code: int) | Ready

  function ExitCode(e: PreflightExit): int {
    match e
    case NoVagrant => -1
    case NoVirtualBox => -5
    case BoxDown => -5
    case Unreachable => -6
    case BadConfig(code) => code
    case Ready => 0
  }

  /** `status not in 'running'` is false for every substring of `running`, the empty one included. */
  predicate LooksRunning(status: string) {
    Contains("running", status)
  }

  /** An empty status and a truncated one count as running; a status with a letter outside `running` does not. */
  lemma StatusSubstrings()
    ensures LooksRunning("") && LooksRunning("run") && LooksRunning("running")
    ensures !LooksRunning("poweroff") && !LooksRunning("not created")
  {
    assert OccursAt("running", "", 0);
    assert OccursAt("running", "run", 0);
    assert OccursAt("running", "running", 0);
    AbsentChar("running", "poweroff", 0);
    AbsentChar("running", "not created", 1);
  }

  /** The box is believed running, or starting it succeeds. */
  predicate BoxUp(r: Round) {
    LooksRunning(r.status) || !r.upFails
  }

  function Current(rerun: bool, env: Environment): Round {
    if rerun then env.second else env.first
  }

  predicate ToolsOk(rerun: bool, env: Environment) {
    rerun || (!env.vagrantFails && !env.vboxFails)
  }

  /** A connection is made in this round, or, on a first run, in the one retry. */
  predicate Connected(rerun: bool, env: Environment) {
    && ToolsOk(rerun, env)
    && BoxUp(Current(rerun, env))
    && (!Current(rerun, env).sshFails || (!rerun && BoxUp(env.second) && !env.second.sshFails))
  }

  /** The exit path `preflight_checks(rerun)` ends on, step by step as the checks run. */
  function PreflightOutcome(rerun: bool, env: Environment): PreflightExit
    decreases if rerun then 0 else 1
  {
    if !rerun && env.vagrantFails then NoVagrant
    else if !rerun && env.vboxFails then NoVirtualBox
    else
      var round := Current(rerun, env);
      if !LooksRunning(round.status) && round.upFails then BoxDown
      else if round.sshFails then (if rerun then Unreachable else PreflightOutcome(true, env))
      else if ReadConfig(env.config).ExitWith? then BadConfig(ReadConfig(env.config).code)
      else Ready
  }

  /**
   * Each exit path, characterised by what the environment does: the tool probes on a first run,
   * a box that cannot be brought up, a connection that fails in both rounds, and otherwise the
   * outcome of reading the configuration.
   */
  lemma {:induction false} PreflightPaths(rerun: bool, env: Environment)
    decreases if rerun then 0 else 1
    ensures var exit := PreflightOutcome(rerun, env);
      && (exit == NoVagrant <==> !rerun && env.vagrantFails)
      && (exit == NoVirtualBox <==> !rerun && !env.vagrantFails && env.vboxFails)
      && (exit == BoxDown <==>
            || (ToolsOk(rerun, env) && !BoxUp(Current(rerun, env)))
            || (ToolsOk(rerun, env) && !rerun && BoxUp(env.first) && env.first.sshFails && !BoxUp(env.second)))
      && (exit == Unreachable <==>
            && ToolsOk(rerun, env) && BoxUp(Current(rerun, env)) && Current(rerun, env).sshFails
            && (rerun || (BoxUp(env.second) && env.second.sshFails)))
      && (exit == Ready <==> Connected(rerun, env) && ReadConfig(env.config).Value?)
      && (exit.BadConfig? <==> Connected(rerun, env) && ReadConfig(env.config).ExitWith?)
      && (exit.BadConfig? ==> exit.code == ReadConfig(env.config).code)
  {
    if !rerun {
      PreflightPaths(true, env);
    }
  }

  /** The steps `preflight_checks(rerun)` takes, in order, up to the exit. */
  function PreflightTrace(rerun: bool, env: Environment): seq<Step>
    decreases if rerun then 0 else 1
  {
    var tools := if rerun then [] else if env.vagrantFails then [CheckVagrant] else [CheckVagrant] + [CheckVirtualBox];
    if !ToolsOk(rerun, env) then tools
    else
      var round := Current(rerun, env);
      var queried := tools + [QueryStatus];
      var started := if LooksRunning(round.status) then queried else queried + [StartBox];
      if !BoxUp(round) then started
      else if !round.sshFails then started + [Connect] + [ReadLocalConfig]
      else if rerun then started + [Connect]
      else started + [Connect] + PreflightTrace(true, env)
  }

  /** The retry skips the tool probes. */
  lemma RetrySkipsTools(env: Environment)
    ensures CheckVagrant !in PreflightTrace(true, env) && CheckVirtualBox !in PreflightTrace(true, env)
  {
  }

  /** A connection is attempted at most once per round, and there are at most two rounds. */
  lemma {:induction false} AtMostTwoAttempts(rerun: bool, env: Environment)
    ensures multiset(PreflightTrace(rerun, env))[Connect] <= if rerun then 1 else 2
    decreases if rerun then 0 else 1
  {
    if !rerun && ToolsOk(rerun, env) && BoxUp(env.first) && env.first.sshFails {
      AtMostTwoAttempts(true, env);
    }
  }

  /** Once the tools are there, the status is queried first, and the box started only when it does not look running. */
  lemma StatusQueriedFirst(rerun: bool, env: Environment)
    requires ToolsOk(rerun, env)
    ensures var trace, b := PreflightTrace(rerun, env), if rerun then 0 else 2;
      |trace| >= b + 2 && trace[b] == QueryStatus &&
      (trace[b + 1] == StartBox <==> !LooksRunning(Current(rerun, env).status))
  {
  }

  /** The configuration is read exactly when a connection has been made. */
  lemma {:induction false} ConfigReadOnlyWhenConnected(rerun: bool, env: Environment)
    ensures ReadLocalConfig in PreflightTrace(rerun, env) <==> Connected(rerun, env)
    decreases if rerun then 0 else 1
  {
    if !rerun {
      ConfigReadOnlyWhenConnected(true, env);
    }
  }

  /**
   * `preflight_checks(rerun)`: on a first run, the tool probes; then the status query, a start of
   * the box unless its status looks running, and a connection attempt. A failed connection is
   * retried once without the tool probes, and fails for good on the retry. After a connection the
   * configuration is read. The checks never return normally: `exit` is the path they end on, and
   * `trace` the steps taken.
   */
  method PreflightChecks(rerun: bool, env: Environment) returns (exit: PreflightExit, trace: seq<Step>)
    ensures exit == PreflightOutcome(rerun, env)
    ensures trace == PreflightTrace(rerun, env)
    decreases if rerun then 0 else 1
  {
    trace := [];
    if !rerun {
      trace := [CheckVagrant];
      if env.vagrantFails {
        return NoVagrant, trace;
      }
      trace := trace + [CheckVirtualBox];
      if env.vboxFails {
        return NoVirtualBox, trace;
      }
    }
    var round := Current(rerun, env);
    trace := trace + [QueryStatus];
    if !LooksRunning(round.status) {
      trace := trace + [StartBox];
      if round.upFails {
        return BoxDown, trace;
      }
    }
    trace := trace + [Connect];
    if round.sshFails {
      if rerun {
        return Unreachable, trace;
      }
      var again, rest := PreflightChecks(true, env);
      return again, trace + rest;
    }
    trace := trace + [ReadLocalConfig];
    match ReadConfig(env.config)
    case ExitWith(code) =>
      return BadConfig(code), trace;
    case Value(_) =>
      return Ready, trace;
  }

  /** What the proxy ends with: the command sent to the box, or an exit without sending one. */
  datatype Action = Execute(host: string, command: string) | Exit(code: int)

  /**
   * `main`: in preflight mode the checks end the process and no command is sent. Otherwise the
   * configuration is read and the configured command, extended by the arguments, is sent to the
   * configured host.
   */
  method RunProxy(argv: seq<string>, env: Environment) returns (action: Action, preflight: Option<PreflightExit>)
    requires |argv| >= 1
    ensures preflight.Some? <==> IsPreflight(argv[1..])
    ensures preflight.Some? ==> action == Exit(ExitCode(preflight.value))
    ensures preflight.Some? ==> preflight.value == PreflightOutcome(false, env)
    ensures preflight.Some? ==>
      (preflight.value == Ready <==> Connected(false, env) && ReadConfig(env.config).Value?)
    ensures preflight.None? ==>
      match ReadConfig(env.config)
      case ExitWith(code) => action == Exit(code)
      case Value(config) => action == Execute(config.host, AssembleCommand(config.command, argv[1..]))
  {
    var options := argv[1..];
    if |options| == 1 && Contains(argv[1], "check") {
      var exit, _ := PreflightChecks(false, env);
      PreflightPaths(false, env);
      return Exit(ExitCode(exit)), Some(exit);
    }
    preflight := None;
    match ReadConfig(env.config)
    case ExitWith(code) =>
      action := Exit(code);
    case Value(config) =>
      action := Execute(config.host, AssembleCommand(config.command, options));
  }
}
