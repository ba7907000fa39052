/**
 * The deterministic core of the IPbus performance suite's command runner:
 * the rewrite of `sudo` commands, the PerfTester command line, the gathering
 * of a local command's output and the hard-timeout decision (over a trace of
 * read events instead of a real pipe and clock), the classification of exit
 * codes, the joining of remote output, and the texts of the two errors.
 */
module PerfSuite {
  import opened Wrappers
  import UrlGrammar

  /** Seconds after the start of a local command beyond which a quiet poll kills it. */
  const TestCmdTimeoutS: nat := 240

  const ChPcName: string := "pc-e1x06-36-01"
  const Targets: seq<string> := ["amc-e1a12-19-09:50001"]

  /** The URI the suite hands to PerfTester to go through the ControlHub. */
  const ChtcpUri: string := "chtcp-2.0://" + ChPcName + ":10203?target=" + Targets[0]

  // ---------------------------------------------------------------------
  // Decimal text of an integer, as Python's str() writes it.

  predicate IsDigit(c: char) { '0' <= c <= '9' }

  predicate NoSpace(s: string) { forall i :: 0 <= i < |s| ==> s[i] != ' ' }

  function NatToDecimal(n: nat): (s: string)
    ensures |s| >= 1 && forall i :: 0 <= i < |s| ==> IsDigit(s[i])
    ensures s[0] == '0' ==> n == 0
  {
    if n < 10 then [(('0' as int) + n) as char]
    else NatToDecimal(n / 10) + [(('0' as int) + n % 10) as char]
  }

  function IntToDecimal(i: int): (s: string)
    ensures |s| >= 1 && NoSpace(s) && IsDigit(s[|s| - 1])
  {
    if i < 0 then "-" + NatToDecimal(-i) else NatToDecimal(i)
  }

  /** Reads decimal text back: the digits' values, most significant first. */
  function DecimalValue(s: string): int {
    if s == [] then 0 else DecimalValue(s[..|s| - 1]) * 10 + (s[|s| - 1] as int - '0' as int)
  }

  function IntValue(s: string): int {
    if |s| > 0 && s[0] == '-' then -DecimalValue(s[1..]) else DecimalValue(s)
  }

  lemma {:induction false} NatDecimalRoundTrip(n: nat)
    ensures DecimalValue(NatToDecimal(n)) == n
    decreases n
  {
    if n >= 10 {
      var s := NatToDecimal(n);
      assert s[..|s| - 1] == NatToDecimal(n / 10);
      NatDecimalRoundTrip(n / 10);
    }
  }

  /** str() loses nothing: the text reads back as the integer it came from. */
  lemma IntDecimalRoundTrip(i: int)
    ensures IntValue(IntToDecimal(i)) == i
  {
    if i < 0 {
      assert ("-" + NatToDecimal(-i))[1..] == NatToDecimal(-i);
      NatDecimalRoundTrip(-i);
    } else {
      NatDecimalRoundTrip(i);
    }
  }

  // ---------------------------------------------------------------------
  // The sudo rewrite at the head of run_command.

  /**
   * A command beginning with "sudo" has its first four characters replaced
   * so that PATH is passed through: the rest of the command after them is
   * kept and exactly the twelve characters of the PATH setting are added.
   * Every other command is left alone, and a command starts with "sudo"
   * after the rewrite exactly when it did before.
   */
  function SudoRewrite(cmd: string): (r: string)
    ensures ("sudo" <= r) <==> ("sudo" <= cmd)
    ensures "sudo" <= cmd ==> |r| == |cmd| + 12 && r[..16] == "sudo PATH=$PATH " && r[16..] == cmd[4..]
    ensures !("sudo" <= cmd) ==> r == cmd
  {
    if "sudo" <= cmd then
      var r := "sudo PATH=$PATH " + cmd[4..];
      assert r[..4] == "sudo";
      r
    else cmd
  }

  /**
   * The rewrite is not idempotent: rewriting a rewritten sudo command adds
   * the PATH setting a second time, so a command that already carries it,
   * like the ControlHub start and stop commands, ends up with it twice.
   */
  lemma SudoRewriteTwice(cmd: string)
    requires "sudo" <= cmd
    ensures SudoRewrite(SudoRewrite(cmd)) == "sudo PATH=$PATH " + (" PATH=$PATH " + cmd[4..])
    ensures SudoRewrite(SudoRewrite(cmd)) != SudoRewrite(cmd)
  {
    var r := SudoRewrite(cmd);
    assert r[..4] == "sudo";
    assert r[4..] == " PATH=$PATH " + cmd[4..];
  }

  lemma ControlHubStartCommand()
    ensures SudoRewrite("sudo PATH=$PATH " + "controlhub_start")
         == "sudo PATH=$PATH " + (" PATH=$PATH " + "controlhub_start")
  {
    var cmd := "sudo PATH=$PATH " + "controlhub_start";
    assert cmd[..4] == "sudo";
    assert cmd[4..] == " PATH=$PATH " + "controlhub_start";
  }

  // ---------------------------------------------------------------------
  // The PerfTester command line of run_perftester.

  /** The PerfTester invocation: the test name first, the target URI last. */
  function CommandLine(uri: string, test: string, width: int, iterations: int, perItDispatch: bool): (r: string)
    ensures "PerfTester.exe -t " + test <= r
    ensures |r| >= 4 + |uri| && r[|r| - (4 + |uri|)..] == " -d " + uri
  {
    "PerfTester.exe -t " + test + " -i " + IntToDecimal(iterations) + " -b 0x1000" + " -w " + IntToDecimal(width)
    + (if perItDispatch then " -p" else "") + (" -d " + uri)
  }

  method BuildCommand(uri: string, test: string, width: int, iterations: int, perItDispatch: bool)
    returns (cmd: string)
    ensures cmd == CommandLine(uri, test, width, iterations, perItDispatch)
  {
    cmd := "PerfTester.exe -t " + test + " -i " + IntToDecimal(iterations) + " -b 0x1000" + " -w " + IntToDecimal(width);
    if perItDispatch {
      cmd := cmd + " -p";
    }
    cmd := cmd + (" -d " + uri);
  }

  /**
   * The command ends with the target URI after " -d ", and what precedes
   * that ends with the " -p" flag exactly when dispatch per iteration was
   * asked for (otherwise it ends with the width's last digit).
   */
  lemma DispatchFlagIff(uri: string, test: string, width: int, iterations: int, perItDispatch: bool)
    ensures var c := CommandLine(uri, test, width, iterations, perItDispatch);
            && |c| >= 4 + |uri|
            && c[|c| - (4 + |uri|)..] == " -d " + uri
            && var head := c[..|c| - (4 + |uri|)];
               (|head| >= 3 && head[|head| - 3..] == " -p") <==> perItDispatch
  {
    var base := "PerfTester.exe -t " + test + " -i " + IntToDecimal(iterations) + " -b 0x1000" + " -w " + IntToDecimal(width);
    var flag := if perItDispatch then " -p" else "";
    var tail := " -d " + uri;
    var c := CommandLine(uri, test, width, iterations, perItDispatch);
    assert c == (base + flag) + tail;
    assert c[..|c| - |tail|] == base + flag;
    assert c[|c| - |tail|..] == tail;
    var d := IntToDecimal(width);
    assert base[|base| - 1] == d[|d| - 1];
    if !perItDispatch {
      assert (base + flag)[|base + flag| - 1] == base[|base| - 1];
    }
  }

  /** The PerfTester command does not start with "sudo", so run_command passes it on unchanged. */
  lemma CommandNotRewritten(uri: string, test: string, width: int, iterations: int, perItDispatch: bool)
    ensures var c := CommandLine(uri, test, width, iterations, perItDispatch);
            SudoRewrite(c) == c
  {
    var c := CommandLine(uri, test, width, iterations, perItDispatch);
    assert c[0] == 'P';
  }

  // ---------------------------------------------------------------------
  // The local read loop of run_command, over a trace of read events.

  /**
   * One pass of the loop: a readline that returned `text` (empty at end of
   * output), or a read that found no data, `elapsed` seconds after the
   * command was started (the time taken at the top of that pass).
   */
  datatype Event = Read(text: string) | NoData(elapsed: real)

  /** What the loop does to the world besides reading: a short sleep, or killing the process group. */
  datatype Effect = Pause | KillGroup

  datatype LoopOutcome = Finished(output: string) | TimedOut | Exhausted(output: string)

  /** An event that ends the loop: end of output, or a quiet poll past the timeout. */
  predicate Stops(e: Event) {
    (e.Read? && e.text == []) || (e.NoData? && e.elapsed > TestCmdTimeoutS as real)
  }

  /** The index of the first event that ends the loop, or the length of the trace if none does. */
  function FirstStop(trace: seq<Event>): (k: nat)
    ensures k <= |trace|
    ensures forall j :: 0 <= j < k ==> !Stops(trace[j])
    ensures k < |trace| ==> Stops(trace[k])
  {
    if trace == [] then 0
    else if Stops(trace[0]) then 0
    else 1 + FirstStop(trace[1..])
  }

  lemma FirstStopIs(trace: seq<Event>, k: nat)
    requires k <= |trace|
    requires forall j :: 0 <= j < k ==> !Stops(trace[j])
    requires k < |trace| ==> Stops(trace[k])
    ensures FirstStop(trace) == k
  {
  }

  /** The texts read, in order. */
  function Lines(events: seq<Event>): seq<string> {
    if events == [] then []
    else Lines(events[..|events| - 1]) + (match events[|events| - 1] case Read(t) => [t] case NoData(_) => [])
  }

  function Concat(lines: seq<string>): string {
    if lines == [] then "" else Concat(lines[..|lines| - 1]) + lines[|lines| - 1]
  }

  /** One pause per quiet poll. */
  function Pauses(events: seq<Event>): seq<Effect> {
    if events == [] then []
    else Pauses(events[..|events| - 1]) + (if events[|events| - 1].NoData? then [Pause] else [])
  }

  /** The result of the loop: the output up to the end of output, a timeout, or a trace that ran out first. */
  function Outcome(trace: seq<Event>): (r: LoopOutcome)
    ensures r.Exhausted? <==> forall j :: 0 <= j < |trace| ==> !Stops(trace[j])
  {
    var k := FirstStop(trace);
    if k == |trace| then Exhausted(Concat(Lines(trace)))
    else if trace[k].Read? then Finished(Concat(Lines(trace[..k])))
    else TimedOut
  }

  /**
   * What the loop does besides reading: a pause per quiet poll, and on a
   * timeout a last pause and then the kill of the process group, which
   * happens exactly when the loop times out.
   */
  function LoopEffects(trace: seq<Event>): (r: seq<Effect>)
    ensures KillGroup in r <==> Outcome(trace).TimedOut?
    ensures Outcome(trace).TimedOut? ==> |r| > 0 && r[|r| - 1] == KillGroup
  {
    var k := FirstStop(trace);
    PauseFree(trace[..k]);
    Pauses(trace[..k]) + (if k < |trace| && trace[k].NoData? then [Pause, KillGroup] else [])
  }

  lemma {:induction false} ConcatAppend(a: seq<string>, b: seq<string>)
    ensures Concat(a + b) == Concat(a) + Concat(b)
    decreases |b|
  {
    if b == [] {
      assert a + b == a;
    } else {
      assert (a + b)[..|a + b| - 1] == a + b[..|b| - 1];
      ConcatAppend(a, b[..|b| - 1]);
    }
  }

  lemma PauseFree(events: seq<Event>)
    ensures KillGroup !in Pauses(events)
  {
  }

  /** One more event adds its text, if any, to the output, and its pause, if any, to the effects. */
  lemma LoopStep(trace: seq<Event>, i: nat)
    requires i < |trace|
    ensures Concat(Lines(trace[..i + 1]))
         == Concat(Lines(trace[..i])) + (match trace[i] case Read(t) => t case NoData(_) => "")
    ensures Pauses(trace[..i + 1]) == Pauses(trace[..i]) + (if trace[i].NoData? then [Pause] else [])
  {
    var p := trace[..i + 1];
    assert p[..|p| - 1] == trace[..i] && p[|p| - 1] == trace[i];
    var lines := Lines(trace[..i]);
    match trace[i] {
      case Read(t) =>
        assert (lines + [t])[..|lines|] == lines;
      case NoData(_) =>
        assert lines + [] == lines;
    }
  }

  lemma FinishAt(trace: seq<Event>, i: nat)
    requires i < |trace| && trace[i] == Read([])
    requires forall j :: 0 <= j < i ==> !Stops(trace[j])
    ensures Outcome(trace) == Finished(Concat(Lines(trace[..i])))
    ensures LoopEffects(trace) == Pauses(trace[..i]) && KillGroup !in Pauses(trace[..i])
  {
    FirstStopIs(trace, i);
    PauseFree(trace[..i]);
  }

  lemma TimeoutAt(trace: seq<Event>, i: nat)
    requires i < |trace| && trace[i].NoData? && trace[i].elapsed > TestCmdTimeoutS as real
    requires forall j :: 0 <= j < i ==> !Stops(trace[j])
    ensures Outcome(trace) == TimedOut
    ensures LoopEffects(trace) == Pauses(trace[..i]) + [Pause, KillGroup]
  {
    FirstStopIs(trace, i);
  }

  lemma ExhaustedAt(trace: seq<Event>)
    requires forall j :: 0 <= j < |trace| ==> !Stops(trace[j])
    ensures Outcome(trace) == Exhausted(Concat(Lines(trace)))
    ensures LoopEffects(trace) == Pauses(trace) && KillGroup !in Pauses(trace)
  {
    FirstStopIs(trace, |trace|);
    assert trace[..|trace|] == trace;
    PauseFree(trace);
  }

  /**
   * The loop of run_command's local branch.  It reads until the first empty
   * read and returns what it read, in order; on a read that finds no data
   * it sleeps and, if more than the timeout has passed since the start,
   * kills the process group and gives up.
   */
  method ReadLoop(trace: seq<Event>) returns (outcome: LoopOutcome, effects: seq<Effect>)
    ensures outcome == Outcome(trace) && effects == LoopEffects(trace)
    ensures KillGroup in effects <==> outcome.TimedOut?
    ensures outcome.TimedOut? ==> effects[|effects| - 1] == KillGroup
  {
    var stdout := "";
    effects := [];
    var i := 0;
    while i < |trace|
      invariant i <= |trace|
      invariant forall j :: 0 <= j < i ==> !Stops(trace[j])
      invariant stdout == Concat(Lines(trace[..i]))
      invariant effects == Pauses(trace[..i])
    {
      LoopStep(trace, i);
      match trace[i] {
        case Read(text) =>
          if text == [] {
            FinishAt(trace, i);
            outcome := Finished(stdout);
            return;
          }
          stdout := stdout + text;
        case NoData(elapsed) =>
          effects := effects + [Pause];
          if elapsed > TestCmdTimeoutS as real {
            TimeoutAt(trace, i);
            effects := effects + [KillGroup];
            outcome := TimedOut;
            return;
          }
      }
      i := i + 1;
    }
    assert trace[..i] == trace;
    ExhaustedAt(trace);
    outcome := Exhausted(stdout);
  }

  /** A timeout happens exactly when some quiet poll past the timeout comes before any end of output. */
  lemma TimedOutIff(trace: seq<Event>)
    ensures Outcome(trace).TimedOut? <==>
            exists k :: 0 <= k < |trace| && trace[k].NoData? && trace[k].elapsed > TestCmdTimeoutS as real
                        && forall j :: 0 <= j < k ==> !Stops(trace[j])
  {
    var k := FirstStop(trace);
    if Outcome(trace).TimedOut? {
      assert k < |trace| && trace[k].NoData?;
    }
    if exists k :: 0 <= k < |trace| && trace[k].NoData? && trace[k].elapsed > TestCmdTimeoutS as real
                   && forall j :: 0 <= j < k ==> !Stops(trace[j]) {
      var k' :| 0 <= k' < |trace| && trace[k'].NoData? && trace[k'].elapsed > TestCmdTimeoutS as real
                 && forall j :: 0 <= j < k' ==> !Stops(trace[j]);
      FirstStopIs(trace, k');
    }
  }

  /**
   * The loop finishes with `out` exactly when an empty read comes before any
   * other stopping event and `out` is everything read before it, in order.
   */
  lemma FinishedIff(trace: seq<Event>, out: string)
    ensures Outcome(trace) == Finished(out) <==>
            exists k :: 0 <= k < |trace| && trace[k] == Read([])
                        && (forall j :: 0 <= j < k ==> !Stops(trace[j]))
                        && out == Concat(Lines(trace[..k]))
  {
    var k := FirstStop(trace);
    if Outcome(trace) == Finished(out) {
      assert k < |trace| && trace[k] == Read([]);
    }
    if exists k :: 0 <= k < |trace| && trace[k] == Read([])
                   && (forall j :: 0 <= j < k ==> !Stops(trace[j]))
                   && out == Concat(Lines(trace[..k])) {
      var k' :| 0 <= k' < |trace| && trace[k'] == Read([])
                 && (forall j :: 0 <= j < k' ==> !Stops(trace[j]))
                 && out == Concat(Lines(trace[..k']));
      FirstStopIs(trace, k');
    }
  }

  /**
   * The clock is only looked at when a read finds no data: a command that
   * always has output ready is never timed out, however long it runs.
   */
  lemma ChattyCommandNeverTimesOut(trace: seq<Event>)
    requires forall k :: 0 <= k < |trace| ==> trace[k].Read?
    ensures !Outcome(trace).TimedOut?
  {
    TimedOutIff(trace);
  }

  /** Nothing after the first empty read matters: the output is what was read before it. */
  lemma EventsAfterEndIgnored(before: seq<Event>, after: seq<Event>)
    requires forall j :: 0 <= j < |before| ==> !Stops(before[j])
    ensures Outcome(before + [Read([])] + after) == Finished(Concat(Lines(before)))
  {
    var trace := before + [Read([])] + after;
    assert trace[|before|] == Read([]);
    assert forall j :: 0 <= j < |before| ==> trace[j] == before[j];
    FirstStopIs(trace, |before|);
    assert trace[..|before|] == before;
  }

  // ---------------------------------------------------------------------
  // Exit codes, the whole of run_command, and the error texts.

  /**
   * What run_command returns or raises.  `StillRunning` is a local command
   * whose trace ended before the end of its output or a timeout.
   */
  datatype RunResult =
    | Completed(code: Option<int>, output: string)
    | HardTimeout(cmd: string, timeout: int)
    | BadExitCode(cmd: string, value: int)
    | StillRunning(partial: string)

  /**
   * A truthy exit code is an error carrying that code; a falsy one, zero or
   * the None of a process that poll() still finds running, is returned with
   * the output.
   */
  function ExitStatus(cmd: string, code: Option<int>, output: string): (r: RunResult)
    ensures r.BadExitCode? <==> code.Some? && code.value != 0
    ensures r.BadExitCode? ==> r.cmd == cmd && r.value == code.value
    ensures !r.BadExitCode? ==> r == Completed(code, output)
  {
    match code
    case Some(v) => if v != 0 then BadExitCode(cmd, v) else Completed(code, output)
    case None => Completed(code, output)
  }

  /** The local branch of run_command, with poll()'s answer after the loop as a parameter. */
  method RunLocal(cmd: string, trace: seq<Event>, poll: Option<int>) returns (r: RunResult, effects: seq<Effect>)
    ensures effects == LoopEffects(trace)
    ensures match Outcome(trace)
            case Finished(out) => r == ExitStatus(SudoRewrite(cmd), poll, out)
            case TimedOut => r == HardTimeout(SudoRewrite(cmd), TestCmdTimeoutS)
            case Exhausted(out) => r == StillRunning(out)
  {
    var c := SudoRewrite(cmd);
    var outcome;
    outcome, effects := ReadLoop(trace);
    match outcome
    case Finished(out) => r := ExitStatus(c, poll, out);
    case TimedOut => r := HardTimeout(c, TestCmdTimeoutS);
    case Exhausted(out) => r := StillRunning(out);
  }

  /**
   * run_perftester up to the point where the output is scraped: the
   * command line it builds, run locally.
   */
  method RunPerfTester(uri: string, test: string, width: int, iterations: int, perItDispatch: bool,
                       trace: seq<Event>, poll: Option<int>)
    returns (r: RunResult, effects: seq<Effect>)
    ensures effects == LoopEffects(trace)
    ensures match Outcome(trace)
            case Finished(out) => r == ExitStatus(CommandLine(uri, test, width, iterations, perItDispatch), poll, out)
            case TimedOut => r == HardTimeout(CommandLine(uri, test, width, iterations, perItDispatch), TestCmdTimeoutS)
            case Exhausted(out) => r == StillRunning(out)
  {
    var cmd := BuildCommand(uri, test, width, iterations, perItDispatch);
    CommandNotRewritten(uri, test, width, iterations, perItDispatch);
    r, effects := RunLocal(cmd, trace, poll);
  }

  /**
   * The remote branch of run_command: the exit status is waited for first,
   * and only a zero status goes on to read all of stdout and then all of
   * stderr.
   */
  function RunRemote(cmd: string, status: int, stdoutLines: seq<string>, stderrLines: seq<string>): (r: RunResult)
    ensures r.BadExitCode? <==> status != 0
    ensures r.BadExitCode? ==> r.cmd == SudoRewrite(cmd) && r.value == status
    ensures !r.BadExitCode? ==> r.Completed? && r.code == Some(0)
  {
    var c := SudoRewrite(cmd);
    if status != 0 then BadExitCode(c, status)
    else Completed(Some(status), Concat(stdoutLines) + Concat(stderrLines))
  }

  /**
   * The remote branch classifies its status like the local one, its output
   * is the stdout lines followed by the stderr lines, and a failing status
   * is reported whatever the streams hold.
   */
  lemma RemoteOutput(cmd: string, status: int, stdoutLines: seq<string>, stderrLines: seq<string>,
                     otherOut: seq<string>, otherErr: seq<string>)
    ensures RunRemote(cmd, status, stdoutLines, stderrLines)
         == ExitStatus(SudoRewrite(cmd), Some(status), Concat(stdoutLines + stderrLines))
    ensures status != 0 ==>
            RunRemote(cmd, status, stdoutLines, stderrLines) == RunRemote(cmd, status, otherOut, otherErr)
  {
    ConcatAppend(stdoutLines, stderrLines);
  }

  /** The message of the hard-timeout exception: the quoted command first, the unit last. */
  function HardTimeoutText(cmd: string, timeout: int): (r: string)
    ensures |r| >= 9 + |cmd| + 8 && r[..9 + |cmd|] == "Command '" + cmd && r[|r| - 8..] == " seconds"
  {
    "Command '" + cmd + "', timeout was " + IntToDecimal(timeout) + " seconds"
  }

  /** The message of the bad-exit-code exception: the code first, the quoted command last. */
  function BadExitCodeText(cmd: string, value: int): (r: string)
    ensures |r| >= 10 + |cmd| + 2 && r[..10] == "Exit code " && r[|r| - (|cmd| + 2)..] == "'" + cmd + "'"
  {
    "Exit code " + IntToDecimal(value) + " from command '" + cmd + "'"
  }

  /** Text without spaces followed by text starting with one splits only one way. */
  lemma SplitBeforeSpace(d1: string, q1: string, d2: string, q2: string)
    requires d1 + q1 == d2 + q2
    requires NoSpace(d1) && NoSpace(d2)
    requires |q1| > 0 && q1[0] == ' ' && |q2| > 0 && q2[0] == ' '
    ensures d1 == d2 && q1 == q2
  {
    assert (d1 + q1)[|d1|] == ' ';
    assert (d2 + q2)[|d2|] == ' ';
    assert |d1| == |d2|;
    assert d1 == (d1 + q1)[..|d1|];
    assert d2 == (d2 + q2)[..|d2|];
    assert q1 == (d1 + q1)[|d1|..];
    assert q2 == (d2 + q2)[|d2|..];
  }

  /** Text ending in a space followed by text without spaces splits only one way. */
  lemma SplitAfterSpace(a1: string, d1: string, a2: string, d2: string)
    requires a1 + d1 == a2 + d2
    requires NoSpace(d1) && NoSpace(d2)
    requires |a1| > 0 && a1[|a1| - 1] == ' ' && |a2| > 0 && a2[|a2| - 1] == ' '
    ensures a1 == a2 && d1 == d2
  {
    assert (a1 + d1)[|a1| - 1] == ' ';
    assert (a2 + d2)[|a2| - 1] == ' ';
    assert |a1| == |a2|;
    assert a1 == (a1 + d1)[..|a1|];
    assert a2 == (a2 + d2)[..|a2|];
    assert d1 == (a1 + d1)[|a1|..];
    assert d2 == (a2 + d2)[|a2|..];
  }

  /** The bad-exit message is a fixed prefix, the code, then a part that starts with a space and quotes the command. */
  lemma BadExitCodeTextParts(cmd: string, value: int)
    ensures var q := " from command '" + cmd + "'";
            && BadExitCodeText(cmd, value)[10..] == IntToDecimal(value) + q
            && |q| > 0 && q[0] == ' ' && q[15..|q| - 1] == cmd
  {
    Regroup("Exit code ", IntToDecimal(value), " from command '" + cmd, "'");
    QuotedCommand(cmd);
  }

  lemma Regroup(a: string, b: string, c: string, d: string)
    ensures ((a + b) + c) + d == a + (b + (c + d))
    ensures (a + b + c + d)[|a|..] == b + (c + d)
  {
  }

  lemma QuotedCommand(cmd: string)
    ensures var q := " from command '" + cmd + "'";
            |q| == |cmd| + 16 && q[0] == ' ' && q[15..|q| - 1] == cmd
  {
  }

  /** A bad-exit message names its command and its exit code unambiguously. */
  lemma BadExitCodeTextInjective(cmd1: string, value1: int, cmd2: string, value2: int)
    requires BadExitCodeText(cmd1, value1) == BadExitCodeText(cmd2, value2)
    ensures cmd1 == cmd2 && value1 == value2
  {
    BadExitCodeTextParts(cmd1, value1);
    BadExitCodeTextParts(cmd2, value2);
    SplitBeforeSpace(IntToDecimal(value1), " from command '" + cmd1 + "'",
                     IntToDecimal(value2), " from command '" + cmd2 + "'");
    IntDecimalRoundTrip(value1);
    IntDecimalRoundTrip(value2);
  }

  /** A timeout message names its command and its timeout unambiguously. */
  lemma HardTimeoutTextInjective(cmd1: string, timeout1: int, cmd2: string, timeout2: int)
    requires HardTimeoutText(cmd1, timeout1) == HardTimeoutText(cmd2, timeout2)
    ensures cmd1 == cmd2 && timeout1 == timeout2
  {
    var s := " seconds";
    var a1 := "Command '" + cmd1 + "', timeout was ";
    var a2 := "Command '" + cmd2 + "', timeout was ";
    var d1, d2 := IntToDecimal(timeout1), IntToDecimal(timeout2);
    var m := HardTimeoutText(cmd1, timeout1);
    assert m == (a1 + d1) + s;
    assert HardTimeoutText(cmd2, timeout2) == (a2 + d2) + s;
    assert a1 + d1 == m[..|m| - |s|];
    assert a2 + d2 == m[..|m| - |s|];
    SplitAfterSpace(a1, d1, a2, d2);
    assert cmd1 == a1[9..|a1| - 15];
    assert cmd2 == a2[9..|a2| - 15];
    IntDecimalRoundTrip(timeout1);
    IntDecimalRoundTrip(timeout2);
  }

  /** The ControlHub URI the suite uses is one the URI grammar reads field by field. */
  lemma ChtcpUriParses()
    ensures UrlGrammar.Parse(ChtcpUri)
         == UrlGrammar.Match(UrlGrammar.Uri("chtcp-2.0", "pc-e1x06-36-01", "10203", "", "",
                                            [UrlGrammar.Argument("target", "amc-e1a12-19-09:50001")]), "")
  {
    assert ChtcpUri == "chtcp-2.0" + ("://" + ("pc-e1x06-36-01" + (":" + ("10203" +
                       ("?" + ("target" + ("=" + "amc-e1a12-19-09:50001")))))));
    UrlGrammar.ChtcpExample();
  }
}
