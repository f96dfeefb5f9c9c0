/** Running shell-like command lines: the split of a line into program and arguments, the
    logged runner that walks a list of commands, and the confirmation gate. */
module Commands {
  import opened Base
  import opened GoStrings
  import opened Machine

  /** A program as `exec.Command` receives it: its name and its arguments. */
  datatype Invocation = Invocation(program: string, args: seq<string>)

  /** A command line with the message logged before it runs; a failure of a command with
      `ignoreErr` set is logged and passed over. */
  datatype LoggedCommand = LoggedCommand(logMessage: string, command: string, ignoreErr: bool)

  /** `RunCommand`'s split: the program is the text before the first space and every
      further single space starts a new argument, so doubled spaces give empty
      arguments. */
  function Tokenize(c: string): (inv: Invocation)
    ensures ' ' !in inv.program
    ensures Join([inv.program] + inv.args, " ") == c
  {
    var parts := Split(c, " ");
    SplitNoSep(c, ' ');
    JoinSplit(c, " ");
    assert parts == [parts[0]] + parts[1..];
    Invocation(parts[0], parts[1..])
  }

  /** Pieces without spaces, joined by single spaces, come back apart: the first is the
      program and the others, empty ones included, are the arguments. */
  lemma TokenizeJoin(pieces: seq<string>)
    requires |pieces| >= 1
    requires forall k :: 0 <= k < |pieces| ==> ' ' !in pieces[k]
    ensures Tokenize(Join(pieces, " ")) == Invocation(pieces[0], pieces[1..])
  {
    SplitJoin(pieces, ' ');
  }

  /** `RunCommand`: starts the program `Tokenize(c)` names and waits for it. The machine
      records the command line. */
  method RunCommand(h: Host, c: string) returns (o: Outcome)
    modifies h`ran
    ensures h.ran == old(h.ran) + [c]
    ensures o == RunResult(h.failing, c)
  {
    o := h.Exec(c);
  }

  /** `GetCommandOutput`: starts the program `Tokenize(c)` names and collects what it
      prints. */
  method GetCommandOutput(h: Host, c: string) returns (r: Result<string>)
    modifies h`ran
    ensures h.ran == old(h.ran) + [c]
    ensures r == OutputResult(h.failing, h.outputs, c)
  {
    r := h.ExecOutput(c);
  }

  /** Whether command `c` fails on a machine whose failing command lines are the keys of
      `failing`. */
  predicate Fails(failing: map<string, string>, c: LoggedCommand) {
    c.command in failing
  }

  /** Whether `c` stops the runner: it fails and its failure is not to be ignored. */
  predicate Fatal(failing: map<string, string>, c: LoggedCommand) {
    Fails(failing, c) && !c.ignoreErr
  }

  /** The position of the first command that stops the runner, or `|cmds|` when none
      does. */
  function FirstFatal(failing: map<string, string>, cmds: seq<LoggedCommand>): (n: nat)
    ensures n <= |cmds|
    ensures forall i :: 0 <= i < n ==> !Fatal(failing, cmds[i])
    ensures n < |cmds| ==> Fatal(failing, cmds[n])
  {
    if cmds == [] then 0
    else if Fatal(failing, cmds[0]) then 0
    else 1 + FirstFatal(failing, cmds[1..])
  }

  /** The command lines of `cmds`, in order. */
  function Lines(cmds: seq<LoggedCommand>): (r: seq<string>)
    ensures |r| == |cmds|
    ensures forall i :: 0 <= i < |cmds| ==> r[i] == cmds[i].command
  {
    seq(|cmds|, i requires 0 <= i < |cmds| => cmds[i].command)
  }

  /** What the runner returns: the error of the first command that stops it, or success. */
  function RunnerOutcome(failing: map<string, string>, cmds: seq<LoggedCommand>): (o: Outcome)
    ensures o.Failure? <==> FirstFatal(failing, cmds) < |cmds|
  {
    var n := FirstFatal(failing, cmds);
    if n < |cmds| then Failure(failing[cmds[n].command]) else Success
  }

  /** How many of `cmds` the runner starts: every one up to and including the first that
      stops it. */
  function Started(failing: map<string, string>, cmds: seq<LoggedCommand>): (n: nat)
    ensures n <= |cmds|
  {
    var f := FirstFatal(failing, cmds);
    if f < |cmds| then f + 1 else f
  }

  /** `ExecuteLoggedCommands`: runs the commands one at a time, in order; a failure of a
      command marked `ignoreErr` is passed over, and the first other failure is returned
      with no later command started. */
  method ExecuteLoggedCommands(h: Host, cmds: seq<LoggedCommand>) returns (err: Outcome)
    modifies h`ran
    ensures h.ran == old(h.ran) + Lines(cmds[..Started(h.failing, cmds)])
    ensures err == RunnerOutcome(h.failing, cmds)
  {
    var i := 0;
    while i < |cmds|
      invariant 0 <= i <= |cmds|
      invariant forall j :: 0 <= j < i ==> !Fatal(h.failing, cmds[j])
      invariant h.ran == old(h.ran) + Lines(cmds[..i])
    {
      var o := RunCommand(h, cmds[i].command);
      assert cmds[..i + 1] == cmds[..i] + [cmds[i]];
      assert Lines(cmds[..i + 1]) == Lines(cmds[..i]) + [cmds[i].command];
      if o.Failure? && !cmds[i].ignoreErr {
        NoFatalBefore(h.failing, cmds, i);
        return o;
      }
      i := i + 1;
    }
    NoFatalBefore(h.failing, cmds, i);
    assert cmds[..i] == cmds;
    err := Success;
  }

  /** With no command before `i` stopping the runner, the first that does is at `i` or
      later, and exactly at `i` when command `i` stops it. */
  lemma {:induction false} NoFatalBefore(failing: map<string, string>, cmds: seq<LoggedCommand>, i: nat)
    requires i <= |cmds|
    requires forall j :: 0 <= j < i ==> !Fatal(failing, cmds[j])
    ensures FirstFatal(failing, cmds) >= i
    ensures i < |cmds| && Fatal(failing, cmds[i]) ==> FirstFatal(failing, cmds) == i
  {
    if i > 0 {
      NoFatalBefore(failing, cmds[1..], i - 1);
    }
  }

  /** The runner reports success exactly when every command either succeeds or has its
      failure ignored; in particular an empty list succeeds. */
  lemma RunnerSucceedsIff(failing: map<string, string>, cmds: seq<LoggedCommand>)
    ensures FirstFatal(failing, cmds) == |cmds|
            <==> forall i :: 0 <= i < |cmds| ==> !Fails(failing, cmds[i]) || cmds[i].ignoreErr
  {
    if FirstFatal(failing, cmds) < |cmds| {
      assert Fatal(failing, cmds[FirstFatal(failing, cmds)]);
    }
  }

  /** When the runner stops, it started every command before the one that failed and that
      one, and nothing after it. */
  lemma RunnerStopsAtFirstFatal(failing: map<string, string>, cmds: seq<LoggedCommand>, i: nat)
    requires i < |cmds| && Fatal(failing, cmds[i])
    requires forall j :: 0 <= j < i ==> !Fatal(failing, cmds[j])
    ensures Started(failing, cmds) == i + 1
    ensures Lines(cmds[..Started(failing, cmds)]) == Lines(cmds[..i]) + [cmds[i].command]
  {
    NoFatalBefore(failing, cmds, i);
    assert cmds[..i + 1] == cmds[..i] + [cmds[i]];
  }

  /** A failure whose command is marked `ignoreErr` does not stop the runner: the command
      after it is started as well, when there is one. */
  lemma IgnoredFailureContinues(failing: map<string, string>, cmds: seq<LoggedCommand>, i: nat)
    requires i < |cmds| && Fails(failing, cmds[i]) && cmds[i].ignoreErr
    requires forall j :: 0 <= j < i ==> !Fatal(failing, cmds[j])
    ensures Started(failing, cmds) >= i + 1
    ensures i + 1 < |cmds| ==> Started(failing, cmds) >= i + 2
  {
    NoFatalBefore(failing, cmds, i + 1);
  }

  /** `ConfirmCommand`: runs `c` only when the operator confirms; a declined command is not
      started and counts as success. */
  method ConfirmCommand(h: Host, c: string) returns (err: Outcome)
    modifies h`answers, h`ran
    ensures h.answers == Rest(old(h.answers))
    ensures !Confirmed(old(h.answers)) ==> err == Success && h.ran == old(h.ran)
    ensures Confirmed(old(h.answers)) ==> h.ran == old(h.ran) + [c]
    ensures Confirmed(old(h.answers)) ==> err == RunResult(h.failing, c)
  {
    var yes := h.Confirm();
    if !yes {
      return Success;
    }
    err := RunCommand(h, c);
  }
}
