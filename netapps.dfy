/** The listening-applications scripts: `NetApps` (script/net_apps.go) and the later copy
    in `NetworkApps` (script/net.go). Each reads the table `netstat -tunlpw` prints, asks
    about every listening process, kills and uninstalls the ones the operator rejects, and
    finishes with `apt autoremove`. */
module ListeningApps {
  import opened Base
  import opened GoStrings
  import opened Machine
  import opened Commands

  /** One row of the netstat table: the owning process and the local address. */
  datatype Listener = Listener(pid: string, proc: string, address: string)

  const Netstat := "netstat -tunlpw"
  const Autoremove := "apt autoremove"

  /** The prefixes of the script's error messages. */
  const NetstatFailed := "unable to get netstat data: "
  const UninstallFailed := "unable to uninstall program: "
  const AutoremoveFailed := "unable to autoremove packages: "
  const FindFailed := "unable to find traces of program: "
  const RemoveFailed := "unable to remove "

  /** The text of the Go runtime panic `strings.Split(output, "\n")[2:]` raises when the
      output has no line break. */
  const SlicePanic := "runtime error: slice bounds out of range [2:1]"

  /** The row a netstat line describes: it needs at least seven fields, and the seventh,
      `pid/program`, must hold exactly one `/`. The process name is the text after the
      `/` up to the first `:`. */
  function ParseListener(line: string): (r: Option<Listener>)
    ensures r.Some? <==> |Fields(line)| >= 7 && multiset(Fields(line)[6])['/'] == 1
    ensures r.Some? ==> r.value.address == Fields(line)[3]
    ensures r.Some? ==> '/' !in r.value.pid && '/' !in r.value.proc && ':' !in r.value.proc
    ensures r.Some? ==> HasPrefix(Fields(line)[6], r.value.pid + "/" + r.value.proc)
    ensures r.Some? ==> var n := |r.value.pid| + 1 + |r.value.proc|;
                        n == |Fields(line)[6]| || Fields(line)[6][n] == ':'
  {
    var fields := Fields(line);
    if |fields| < 7 then None
    else
      var split := Split(fields[6], "/");
      SplitCount(fields[6], '/');
      if |split| != 2 then None
      else
        var proc := Split(Split(split[1], " ")[0], ":")[0];
        ProgramField(fields[6], split[0], split[1]);
        assert IsWord(fields[6]);
        Some(Listener(split[0], proc, fields[3]))
  }

  /** The parts of a `pid/program` field around its one `/`: the process name is a
      prefix of the program part, followed by nothing, a space or a colon. */
  lemma ProgramField(f: string, pid: string, cmd: string)
    requires f == pid + "/" + cmd && '/' !in cmd
    ensures var proc := Split(Split(cmd, " ")[0], ":")[0];
            var n := |pid| + 1 + |proc|;
            proc == FirstPart(FirstPart(cmd, ' '), ':')
            && '/' !in proc && ':' !in proc
            && HasPrefix(f, pid + "/" + proc)
            && (n == |f| || f[n] == ':' || f[n] == ' ')
  {
    var b := FirstPart(cmd, ' ');
    var proc := FirstPart(b, ':');
    assert b == cmd[..|b|];
    assert proc == b[..|proc|];
    assert (pid + "/" + proc) == f[..|pid| + 1 + |proc|];
  }

  /** A netstat line made of seven or more words, whose seventh is `pid/proc` followed by
      nothing or by a `:` suffix, describes exactly that process at the fourth word. */
  lemma ParseBuilt(words: seq<string>, pid: string, proc: string, suffix: string)
    requires |words| >= 7
    requires forall k :: 0 <= k < |words| ==> IsWord(words[k])
    requires '/' !in pid && '/' !in proc && ':' !in proc && '/' !in suffix
    requires suffix == [] || suffix[0] == ':'
    requires words[6] == pid + "/" + proc + suffix
    ensures ParseListener(Join(words, " ")) == Some(Listener(pid, proc, words[3]))
  {
    FieldsJoin(words);
    assert IsWord(words[6]);
    ProgramOf(words[6], pid, proc, suffix);
  }

  /** The `pid/program` field `pid/proc` followed by a `:` suffix or nothing splits into
      that process id and that process name. */
  lemma ProgramOf(f: string, pid: string, proc: string, suffix: string)
    requires forall i :: 0 <= i < |f| ==> !IsSpace(f[i])
    requires '/' !in pid && '/' !in proc && ':' !in proc && '/' !in suffix
    requires suffix == [] || suffix[0] == ':'
    requires f == pid + "/" + proc + suffix
    ensures Split(f, "/") == [pid, proc + suffix]
    ensures Split(Split(proc + suffix, " ")[0], ":")[0] == proc
  {
    var cmd := proc + suffix;
    AppendAssoc(pid + "/", proc, suffix);
    PidSplit(pid, cmd);
    NoSpaceWord(f);
    assert ' ' !in cmd by {
      assert cmd == f[|pid| + 1..];
    }
    SplitAbsent(cmd, ' ');
    ProcBeforeColon(proc, suffix);
  }

  /** A `pid/program` field with one `/` splits around it. */
  lemma PidSplit(pid: string, cmd: string)
    requires '/' !in pid && '/' !in cmd
    ensures Split(pid + "/" + cmd, "/") == [pid, cmd]
  {
    SplitAtChar(pid, '/', cmd);
    SplitAbsent(cmd, '/');
  }

  /** A word holds no space character. */
  lemma NoSpaceWord(w: string)
    requires forall i :: 0 <= i < |w| ==> !IsSpace(w[i])
    ensures ' ' !in w
  {
  }

  /** The text before the first colon of a name followed by nothing or a colon suffix is
      the name. */
  lemma ProcBeforeColon(proc: string, suffix: string)
    requires ':' !in proc && (suffix == [] || suffix[0] == ':')
    ensures Split(proc + suffix, ":")[0] == proc
  {
    if suffix == [] {
      assert proc + suffix == proc;
      IndexOfChar(proc, ':');
    } else {
      assert proc + suffix == proc + [':'] + suffix[1..];
      SplitAtChar(proc, ':', suffix[1..]);
    }
  }

  /** A line with fewer than seven fields is not a row. */
  lemma ShortLineIgnored(words: seq<string>)
    requires |words| < 7
    requires forall k :: 0 <= k < |words| ==> IsWord(words[k])
    ensures ParseListener(Join(words, " ")) == None
  {
    FieldsJoin(words);
  }

  /** The prefix of the diagnostics `find` prints. */
  const FindDiagnostic := "find:"

  /** A line kept by the trace filter: not empty and not a `find:` diagnostic. */
  predicate Kept(line: string) {
    line != "" && !HasPrefix(line, FindDiagnostic)
  }

  /** The lines of `find`'s output that name a trace, in order. */
  function Traces(lines: seq<string>): (t: seq<string>)
    ensures |t| <= |lines|
    ensures forall k :: 0 <= k < |t| ==> Kept(t[k])
    decreases |lines|
  {
    if lines == [] then []
    else
      var last := lines[|lines| - 1];
      Traces(lines[..|lines| - 1]) + (if Kept(last) then [last] else [])
  }

  /** The trace filter keeps exactly the kept lines: each of them is a line of the output,
      and each kept line of the output is among them. */
  lemma {:induction false} TracesMeaning(lines: seq<string>, x: string)
    ensures x in Traces(lines) <==> x in lines && Kept(x)
    decreases |lines|
  {
    if lines != [] {
      var init := lines[..|lines| - 1];
      TracesMeaning(init, x);
      assert lines == init + [lines[|lines| - 1]];
    }
  }

  /** Filtering two pieces of output one after the other filters the whole. */
  lemma {:induction false} TracesAppend(a: seq<string>, b: seq<string>)
    ensures Traces(a + b) == Traces(a) + Traces(b)
    decreases |b|
  {
    if b == [] {
      assert a + b == a;
    } else {
      var init := b[..|b| - 1];
      assert (a + b)[..|a + b| - 1] == a + init;
      TracesAppend(a, init);
    }
  }

  /** The removal command of each trace. */
  function RmLines(traces: seq<string>): (r: seq<string>)
    ensures |r| == |traces|
    ensures forall k :: 0 <= k < |r| ==> r[k] == RmCommand(traces[k])
  {
    seq(|traces|, k requires 0 <= k < |traces| => RmCommand(traces[k]))
  }

  /** The position of the first of `cmds` that fails, or `|cmds|` when none does. */
  function FirstFailing(failing: map<string, string>, cmds: seq<string>): (n: nat)
    ensures n <= |cmds|
    ensures forall k :: 0 <= k < n ==> cmds[k] !in failing
    ensures n < |cmds| ==> cmds[n] in failing
  {
    if cmds == [] then 0
    else if cmds[0] in failing then 0
    else 1 + FirstFailing(failing, cmds[1..])
  }

  /** Where the first failure of a concatenation is, given that of its first part. */
  lemma {:induction false} FirstFailingAppend(failing: map<string, string>, a: seq<string>, b: seq<string>)
    ensures FirstFailing(failing, a) < |a| ==> FirstFailing(failing, a + b) == FirstFailing(failing, a)
    ensures FirstFailing(failing, a) == |a| ==> FirstFailing(failing, a + b) == |a| + FirstFailing(failing, b)
  {
    if a != [] {
      assert (a + b)[1..] == a[1..] + b;
      FirstFailingAppend(failing, a[1..], b);
    } else {
      assert a + b == b;
    }
  }

  /** The command that clears the terminal, when the copy clears it by running `reset`;
      the later copy calls `ResetTerminal`, which is not part of this model. */
  function Reset(byCommand: bool): seq<string> {
    if byCommand then ["reset"] else []
  }

  /** The command lines the script builds. */
  function FindCommand(program: string): string {
    "find / -name \"" + program + "\""
  }

  function PurgeCommand(program: string): string {
    "apt purge " + program
  }

  function RmCommand(path: string): string {
    "rm -rf " + path
  }

  function KillCommand(pid: string): string {
    "kill " + pid
  }

  /** The error of a failed removal of `path`. */
  function RemoveError(program: string, path: string, cause: string): string {
    RemoveFailed + program + " at [" + path + "]: " + cause
  }

  /** What running a part of a script does to the machine: the command lines it starts,
      the answers left, and its outcome. */
  datatype Trace = Trace(ran: seq<string>, answers: seq<Answer>, err: Outcome)

  /** `t` preceded by the commands `ran`. */
  function After(ran: seq<string>, t: Trace): Trace {
    Trace(ran + t.ran, t.answers, t.err)
  }

  /** The commands `uninstall(program)` starts and its outcome: purge the package, look up
      its traces, then remove them. */
  function UninstallSpec(failing: map<string, string>, outputs: map<string, string>, byCommand: bool,
                         program: string): Trace
  {
    var find := FindCommand(program);
    var pre := Reset(byCommand) + [PurgeCommand(program), find];
    if find in failing then
      Trace(pre, [], Failure(FindFailed + failing[find]))
    else After(pre, RemovalSpec(failing, program, Split(Printed(outputs, find), "\n")))
  }

  /** The removal of the traces `find` printed as `lines`: one `rm -rf` per kept line, in
      order, until one fails. */
  function RemovalSpec(failing: map<string, string>, program: string, lines: seq<string>): Trace {
    var traces := Traces(lines);
    var rm := RmLines(traces);
    var n := FirstFailing(failing, rm);
    if n < |rm| then
      Trace(rm[..n + 1], [],
            Failure(RemoveError(program, traces[n], failing[rm[n]])))
    else Trace(rm, [], Success)
  }

  /** `uninstall` succeeds exactly when `find` succeeds and no trace fails to be removed;
      on success every kept line of `find`'s output was removed. */
  lemma UninstallSucceedsIff(failing: map<string, string>, outputs: map<string, string>, byCommand: bool,
                             program: string)
    ensures var find := FindCommand(program);
            UninstallSpec(failing, outputs, byCommand, program).err == Success <==>
            find !in failing &&
            forall x :: x in Traces(Split(Printed(outputs, find), "\n")) ==> RmCommand(x) !in failing
    ensures var find := FindCommand(program);
            UninstallSpec(failing, outputs, byCommand, program).err == Success ==>
            forall x :: x in Split(Printed(outputs, find), "\n") && Kept(x) ==>
              RmCommand(x) in UninstallSpec(failing, outputs, byCommand, program).ran
  {
    var find := FindCommand(program);
    if find !in failing {
      var lines := Split(Printed(outputs, find), "\n");
      var traces := Traces(lines);
      var rm := RmLines(traces);
      var n := FirstFailing(failing, rm);
      if n < |rm| {
        assert traces[n] in traces && RmCommand(traces[n]) in failing;
      }
      forall x | x in lines && Kept(x)
        ensures n == |rm| ==> RmCommand(x) in UninstallSpec(failing, outputs, byCommand, program).ran
      {
        TracesMeaning(lines, x);
        var k :| 0 <= k < |traces| && traces[k] == x;
        assert rm[k] == RmCommand(x);
      }
    }
  }

  /** `uninstall`. With `byCommand` it clears the terminal by running `reset`. */
  method Uninstall(h: Host, program: string, byCommand: bool) returns (err: Outcome)
    modifies h`ran
    ensures h.ran == old(h.ran) + UninstallSpec(h.failing, h.outputs, byCommand, program).ran
    ensures err == UninstallSpec(h.failing, h.outputs, byCommand, program).err
  {
    if byCommand {
      var _ := RunCommand(h, "reset");
    }
    var _ := RunCommand(h, PurgeCommand(program));
    var find := FindCommand(program);
    var r := GetCommandOutput(h, find);
    ghost var pre := Reset(byCommand) + [PurgeCommand(program), find];
    assert h.ran == old(h.ran) + pre;
    if r.Err? {
      return Failure(FindFailed + r.message);
    }
    ghost var mid := h.ran;
    err := RemoveTraces(h, program, Split(r.value, "\n"));
    AppendAssoc(old(h.ran), pre, RemovalSpec(h.failing, program, Split(r.value, "\n")).ran);
  }

  /** The loop removing the traces. */
  method RemoveTraces(h: Host, program: string, lines: seq<string>) returns (err: Outcome)
    modifies h`ran
    ensures h.ran == old(h.ran) + RemovalSpec(h.failing, program, lines).ran
    ensures err == RemovalSpec(h.failing, program, lines).err
  {
    var i := 0;
    while i < |lines|
      invariant 0 <= i <= |lines|
      invariant FirstFailing(h.failing, RmLines(Traces(lines[..i]))) == |Traces(lines[..i])|
      invariant h.ran == old(h.ran) + RmLines(Traces(lines[..i]))
    {
      var line := lines[i];
      ghost var done := RmLines(Traces(lines[..i]));
      RemovalStep(h.failing, program, lines, i);
      if line != "" && !HasPrefix(line, FindDiagnostic) {
        assert Kept(line);
        var o := RunCommand(h, RmCommand(line));
        AppendAssoc(old(h.ran), done, [RmCommand(line)]);
        if o.Failure? {
          return Failure(RemoveError(program, line, o.message));
        }
      }
      i := i + 1;
    }
    assert lines[..i] == lines;
    err := Success;
  }

  /** One line of `find`'s output, after the removals for the lines before it all
      succeeded: a line that is not kept adds nothing, a kept line adds its removal,
      and a removal that fails ends the loop with the outcome the specification gives. */
  lemma RemovalStep(failing: map<string, string>, program: string, lines: seq<string>, i: nat)
    requires i < |lines|
    requires FirstFailing(failing, RmLines(Traces(lines[..i]))) == |Traces(lines[..i])|
    ensures !Kept(lines[i]) ==> Traces(lines[..i + 1]) == Traces(lines[..i])
    ensures Kept(lines[i]) ==>
              RmLines(Traces(lines[..i + 1])) == RmLines(Traces(lines[..i])) + [RmCommand(lines[i])]
    ensures !Kept(lines[i]) || RmCommand(lines[i]) !in failing ==>
              FirstFailing(failing, RmLines(Traces(lines[..i + 1]))) == |Traces(lines[..i + 1])|
    ensures Kept(lines[i]) && RmCommand(lines[i]) in failing ==>
              RemovalSpec(failing, program, lines)
              == Trace(RmLines(Traces(lines[..i])) + [RmCommand(lines[i])], [],
                       Failure(RemoveError(program, lines[i], failing[RmCommand(lines[i])])))
  {
    var line := lines[i];
    var head := Traces(lines[..i]);
    assert lines[..i + 1] == lines[..i] + [line];
    TracesAppend(lines[..i], [line]);
    assert Traces([line]) == if Kept(line) then [line] else [] by {
      assert [line][..0] == [];
    }
    if Kept(line) {
      RmLinesAppend(head, [line]);
      FirstFailingAppend(failing, RmLines(head), [RmCommand(line)]);
      if RmCommand(line) in failing {
        RemovalStops(failing, program, lines, i);
      }
    }
  }

  /** When removing the traces of the first `i` lines succeeded and the kept line `i`
      then fails to be removed, that is the first failure over the whole output. */
  lemma RemovalStops(failing: map<string, string>, program: string, lines: seq<string>, i: nat)
    requires i < |lines| && Kept(lines[i]) && RmCommand(lines[i]) in failing
    requires FirstFailing(failing, RmLines(Traces(lines[..i]))) == |Traces(lines[..i])|
    ensures RemovalSpec(failing, program, lines)
            == Trace(RmLines(Traces(lines[..i])) + [RmCommand(lines[i])], [],
                     Failure(RemoveError(program, lines[i], failing[RmCommand(lines[i])])))
  {
    var head := Traces(lines[..i]);
    var tail := Traces(lines[i + 1..]);
    assert lines == lines[..i] + [lines[i]] + lines[i + 1..];
    TracesAround(lines[..i], lines[i], lines[i + 1..]);
    var t := Traces(lines);
    RmLinesAppend(head + [lines[i]], tail);
    RmLinesAppend(head, [lines[i]]);
    FailsAfter(failing, RmLines(head), RmCommand(lines[i]), RmLines(tail));
    assert t[|head|] == lines[i];
  }

  /** The traces around a kept line. */
  lemma TracesAround(a: seq<string>, x: string, b: seq<string>)
    requires Kept(x)
    ensures Traces(a + [x] + b) == Traces(a) + [x] + Traces(b)
  {
    TracesAppend(a + [x], b);
    TracesAppend(a, [x]);
    TracesSingle(x);
  }

  /** A kept line on its own is its own trace. */
  lemma TracesSingle(x: string)
    requires Kept(x)
    ensures Traces([x]) == [x]
  {
    assert [x][..0] == [];
  }

  /** A failing command right after a run of succeeding ones is the first failure. */
  lemma FailsAfter(failing: map<string, string>, p: seq<string>, x: string, q: seq<string>)
    requires FirstFailing(failing, p) == |p| && x in failing
    ensures FirstFailing(failing, p + [x] + q) == |p|
    ensures (p + [x] + q)[..|p| + 1] == p + [x]
  {
    assert p + [x] + q == p + ([x] + q);
    FirstFailingAppend(failing, p, [x] + q);
  }

  /** The removal commands of two lists of traces, one after the other. */
  lemma RmLinesAppend(a: seq<string>, b: seq<string>)
    ensures RmLines(a + b) == RmLines(a) + RmLines(b)
  {
  }

  /** What the script does with one line of the netstat table, answers `a` waiting: a
      row the operator accepts is left alone, any other row is rejected. */
  function Step(failing: map<string, string>, outputs: map<string, string>, byCommand: bool,
                line: string, a: seq<Answer>): Trace
  {
    match ParseListener(line)
    case None => Trace([], a, Success)
    case Some(l) =>
      if Confirmed(a) then Trace([], Rest(a), Success)
      else Rejected(failing, outputs, byCommand, l, Rest(a))
  }

  /** A rejected row: the process is killed when chosen and uninstalled when chosen, and
      an uninstall error ends the script. */
  function Rejected(failing: map<string, string>, outputs: map<string, string>, byCommand: bool,
                    l: Listener, a: seq<Answer>): Trace
  {
    var k := if Confirmed(a) then [KillCommand(l.pid)] else [];
    if !Confirmed(Rest(a)) then Trace(k, Rest(Rest(a)), Success)
    else
      var u := UninstallSpec(failing, outputs, byCommand, l.proc);
      Trace(k + u.ran, Rest(Rest(a)),
            if u.err.Failure? then Failure(UninstallFailed + u.err.message)
            else Success)
  }

  /** The lines of the table handled in order, up to the first error. */
  function Visit(failing: map<string, string>, outputs: map<string, string>, byCommand: bool,
                 lines: seq<string>, a: seq<Answer>): Trace
    decreases |lines|
  {
    if lines == [] then Trace([], a, Success)
    else
      var s := Step(failing, outputs, byCommand, lines[0], a);
      if s.err.Failure? then s
      else After(s.ran, Visit(failing, outputs, byCommand, lines[1..], s.answers))
  }

  /** The handling of one line. */
  method HandleLine(h: Host, line: string, byCommand: bool) returns (err: Outcome)
    modifies h`ran, h`answers
    ensures var s := Step(h.failing, h.outputs, byCommand, line, old(h.answers));
            h.ran == old(h.ran) + s.ran && h.answers == s.answers && err == s.err
  {
    var p := ParseListener(line);
    if p.None? {
      return Success;
    }
    var listen := h.Confirm();
    if listen {
      return Success;
    }
    err := Reject(h, p.value, byCommand);
  }

  /** The handling of a rejected row. */
  method Reject(h: Host, l: Listener, byCommand: bool) returns (err: Outcome)
    modifies h`ran, h`answers
    ensures var s := Rejected(h.failing, h.outputs, byCommand, l, old(h.answers));
            h.ran == old(h.ran) + s.ran && h.answers == s.answers && err == s.err
  {
    ghost var r0 := h.ran;
    var kill := h.Confirm();
    var uninstall := h.Confirm();
    ghost var k: seq<string> := if kill then [KillCommand(l.pid)] else [];
    if kill {
      var _ := RunCommand(h, KillCommand(l.pid));
    }
    assert h.ran == r0 + k;
    if !uninstall {
      return Success;
    }
    ghost var u := UninstallSpec(h.failing, h.outputs, byCommand, l.proc);
    var e := Uninstall(h, l.proc, byCommand);
    AppendAssoc(r0, k, u.ran);
    if e.Failure? {
      return Failure(UninstallFailed + e.message);
    }
    err := Success;
  }

  /** The loop over the table's lines. */
  method VisitLines(h: Host, lines: seq<string>, byCommand: bool) returns (err: Outcome)
    modifies h`ran, h`answers
    ensures var v := Visit(h.failing, h.outputs, byCommand, lines, old(h.answers));
            h.ran == old(h.ran) + v.ran && h.answers == v.answers && err == v.err
  {
    ghost var done: seq<string> := [];
    var i := 0;
    while i < |lines|
      invariant 0 <= i <= |lines|
      invariant h.ran == old(h.ran) + done
      invariant Visit(h.failing, h.outputs, byCommand, lines, old(h.answers))
                == After(done, Visit(h.failing, h.outputs, byCommand, lines[i..], h.answers))
    {
      ghost var s := Step(h.failing, h.outputs, byCommand, lines[i], h.answers);
      VisitUnfold(h.failing, h.outputs, byCommand, lines, i, h.answers);
      ghost var mid := h.ran;
      var e := HandleLine(h, lines[i], byCommand);
      AppendAssoc(old(h.ran), done, s.ran);
      if e.Failure? {
        return e;
      }
      AfterAfter(done, s.ran, Visit(h.failing, h.outputs, byCommand, lines[i + 1..], h.answers));
      done := done + s.ran;
      i := i + 1;
    }
    err := Success;
  }

  /** One line of the table handled, the rest still to go. */
  lemma VisitUnfold(failing: map<string, string>, outputs: map<string, string>, byCommand: bool,
                    lines: seq<string>, i: nat, a: seq<Answer>)
    requires i < |lines|
    ensures var s := Step(failing, outputs, byCommand, lines[i], a);
            Visit(failing, outputs, byCommand, lines[i..], a)
            == if s.err.Failure? then s
               else After(s.ran, Visit(failing, outputs, byCommand, lines[i + 1..], s.answers))
  {
    assert lines[i..][0] == lines[i] && lines[i..][1..] == lines[i + 1..];
  }

  /** Commands run before commands run before `t`. */
  lemma AfterAfter(r1: seq<string>, r2: seq<string>, t: Trace)
    ensures After(r1, After(r2, t)) == After(r1 + r2, t)
  {
    AppendAssoc(r1, r2, t.ran);
  }

  /** The whole script: read the table, handle every line after the two heading lines,
      then clear the terminal and remove unused packages. */
  function RunSpec(failing: map<string, string>, outputs: map<string, string>, byCommand: bool,
                   a: seq<Answer>): Trace
  {
    if Netstat in failing then
      Trace([Netstat], a, Failure(NetstatFailed + failing[Netstat]))
    else After([Netstat], TableSpec(failing, outputs, byCommand, Printed(outputs, Netstat), a))
  }

  /** The script once netstat printed `out`. Slicing off the two heading lines panics
      when `out` has no line break. */
  function TableSpec(failing: map<string, string>, outputs: map<string, string>, byCommand: bool,
                     out: string, a: seq<Answer>): Trace
  {
    if '\n' !in out then Trace([], a, Failure(SlicePanic))
    else
      SplitCount(out, '\n');
      var v := Visit(failing, outputs, byCommand, Split(out, "\n")[2..], a);
      if v.err.Failure? then v
      else After(v.ran, FinishSpec(failing, byCommand, v.answers))
  }

  /** The last step: clear the terminal, then `apt autoremove`. */
  function FinishSpec(failing: map<string, string>, byCommand: bool, a: seq<Answer>): Trace {
    Trace(Reset(byCommand) + [Autoremove], a,
          if Autoremove in failing then Failure(AutoremoveFailed + failing[Autoremove]) else Success)
  }

  /** `NetApps.Run` (`byCommand` true) and `NetworkApps.RunOnLinux` (`byCommand` false). */
  method Run(h: Host, byCommand: bool) returns (err: Outcome)
    modifies h`ran, h`answers
    ensures var t := RunSpec(h.failing, h.outputs, byCommand, old(h.answers));
            h.ran == old(h.ran) + t.ran && h.answers == t.answers && err == t.err
  {
    var r := GetCommandOutput(h, Netstat);
    if r.Err? {
      return Failure(NetstatFailed + r.message);
    }
    err := Table(h, r.value, byCommand);
    AppendAssoc(old(h.ran), [Netstat],
                TableSpec(h.failing, h.outputs, byCommand, r.value, old(h.answers)).ran);
  }

  /** The part of `Run` after netstat printed `out`. */
  method Table(h: Host, out: string, byCommand: bool) returns (err: Outcome)
    modifies h`ran, h`answers
    ensures var t := TableSpec(h.failing, h.outputs, byCommand, out, old(h.answers));
            h.ran == old(h.ran) + t.ran && h.answers == t.answers && err == t.err
  {
    if '\n' !in out {
      return Failure(SlicePanic);
    }
    SplitCount(out, '\n');
    var lines := Split(out, "\n")[2..];
    err := VisitLines(h, lines, byCommand);
    if err.Failure? {
      return;
    }
    ghost var mid := h.ran;
    err := Finish(h, byCommand);
    AppendAssoc(old(h.ran), Visit(h.failing, h.outputs, byCommand, lines, old(h.answers)).ran,
                Reset(byCommand) + [Autoremove]);
  }

  /** The last step of `Run`. */
  method Finish(h: Host, byCommand: bool) returns (err: Outcome)
    modifies h`ran
    ensures var t := FinishSpec(h.failing, byCommand, h.answers);
            h.ran == old(h.ran) + t.ran && err == t.err
  {
    if byCommand {
      var _ := RunCommand(h, "reset");
    }
    var o := RunCommand(h, Autoremove);
    if o.Failure? {
      return Failure(AutoremoveFailed + o.message);
    }
    err := Success;
  }

  /** The two heading lines of the table are never parsed: the lines `TableSpec` hands
      to `Visit` are the lines after the second line break. */
  lemma HeadingLinesSkipped(h1: string, h2: string, rows: string)
    requires '\n' !in h1 && '\n' !in h2
    ensures var out := h1 + "\n" + h2 + "\n" + rows;
            '\n' in out && |Split(out, "\n")| >= 2 && Split(out, "\n")[2..] == Split(rows, "\n")
  {
    SkipTwo(h1, h2, rows, '\n');
    var out := h1 + "\n" + h2 + "\n" + rows;
    assert out == h1 + "\n" + (h2 + "\n" + rows);
    assert out[|h1|] == '\n';
  }

  lemma {:induction false} SkipTwo(h1: string, h2: string, rows: string, c: char)
    requires c !in h1 && c !in h2
    ensures |Split(h1 + [c] + (h2 + [c] + rows), [c])| >= 2
    ensures Split(h1 + [c] + (h2 + [c] + rows), [c])[2..] == Split(rows, [c])
  {
    var tail, rest := h2 + [c] + rows, Split(rows, [c]);
    SplitAtChar(h1, c, tail);
    calc {
      Split(h1 + [c] + tail, [c])[2..];
      ([h1] + Split(tail, [c]))[2..];
      { SplitAtChar(h2, c, rows); }
      ([h1] + ([h2] + rest))[2..];
      rest;
    }
  }

  /** A table whose rows the operator all accepts leaves every process alone: nothing is
      started for them and one answer is taken per row. */
  lemma {:induction false} AcceptedRowsUntouched(failing: map<string, string>, outputs: map<string, string>,
                                                 byCommand: bool, lines: seq<string>, a: seq<Answer>)
    requires forall i :: 0 <= i < |a| ==> a[i] == Yes
    requires |a| >= |lines|
    ensures Visit(failing, outputs, byCommand, lines, a).ran == []
    ensures Visit(failing, outputs, byCommand, lines, a).err == Success
    decreases |lines|
  {
    if lines != [] {
      var s := Step(failing, outputs, byCommand, lines[0], a);
      assert s.ran == [] && s.err == Success;
      assert |s.answers| >= |lines| - 1 && forall i :: 0 <= i < |s.answers| ==> s.answers[i] == Yes;
      AcceptedRowsUntouched(failing, outputs, byCommand, lines[1..], s.answers);
    }
  }

  /** A parsed row takes one answer: accepting it leaves the process alone, and any other
      answer rejects it. */
  lemma RowDecision(failing: map<string, string>, outputs: map<string, string>, byCommand: bool,
                    line: string, rest: seq<Answer>)
    requires ParseListener(line).Some?
    ensures Step(failing, outputs, byCommand, line, [Yes] + rest) == Trace([], rest, Success)
    ensures Step(failing, outputs, byCommand, line, [No] + rest)
            == Rejected(failing, outputs, byCommand, ParseListener(line).value, rest)
  {
    assert Rest([Yes] + rest) == rest;
    assert Rest([No] + rest) == rest;
  }

  /** A rejected row whose uninstall is declined: the process is killed only when that is
      chosen, and nothing else is started. */
  lemma RejectedKeepsProgram(failing: map<string, string>, outputs: map<string, string>, byCommand: bool,
                             l: Listener, rest: seq<Answer>)
    ensures Rejected(failing, outputs, byCommand, l, [No, No] + rest) == Trace([], rest, Success)
    ensures Rejected(failing, outputs, byCommand, l, [Yes, No] + rest)
            == Trace([KillCommand(l.pid)], rest, Success)
  {
    assert Rest(Rest([No, No] + rest)) == rest;
    assert Rest(Rest([Yes, No] + rest)) == rest;
  }

  /** A rejected row whose uninstall is accepted: the uninstall commands are started, after
      the kill command when that is chosen too. */
  lemma RejectedUninstalls(failing: map<string, string>, outputs: map<string, string>, byCommand: bool,
                           l: Listener, rest: seq<Answer>)
    ensures Rejected(failing, outputs, byCommand, l, [No, Yes] + rest).ran
            == UninstallSpec(failing, outputs, byCommand, l.proc).ran
    ensures Rejected(failing, outputs, byCommand, l, [Yes, Yes] + rest).ran
            == [KillCommand(l.pid)] + UninstallSpec(failing, outputs, byCommand, l.proc).ran
  {
    assert Rest([No, Yes] + rest) == [Yes] + rest;
    assert Rest([Yes, Yes] + rest) == [Yes] + rest;
  }

  /** No command started while handling the rows is `apt autoremove`. */
  lemma {:induction false} AutoremoveNotInRows(failing: map<string, string>, outputs: map<string, string>,
                                               byCommand: bool, lines: seq<string>, a: seq<Answer>)
    ensures Autoremove !in Visit(failing, outputs, byCommand, lines, a).ran
    decreases |lines|
  {
    if lines != [] {
      var s := Step(failing, outputs, byCommand, lines[0], a);
      StepNotAutoremove(failing, outputs, byCommand, lines[0], a);
      AutoremoveNotInRows(failing, outputs, byCommand, lines[1..], s.answers);
    }
  }

  lemma StepNotAutoremove(failing: map<string, string>, outputs: map<string, string>, byCommand: bool,
                          line: string, a: seq<Answer>)
    ensures Autoremove !in Step(failing, outputs, byCommand, line, a).ran
  {
    var p := ParseListener(line);
    if p.Some? && !Confirmed(a) {
      var l := p.value;
      assert KillCommand(l.pid)[0] == 'k';
      var u := UninstallSpec(failing, outputs, byCommand, l.proc);
      UninstallNotAutoremove(failing, outputs, byCommand, l.proc);
    }
  }

  lemma UninstallNotAutoremove(failing: map<string, string>, outputs: map<string, string>, byCommand: bool,
                               program: string)
    ensures Autoremove !in UninstallSpec(failing, outputs, byCommand, program).ran
  {
    assert PurgeCommand(program)[4] == 'p';
    assert FindCommand(program)[0] == 'f';
    var find := FindCommand(program);
    if find !in failing {
      var rm := RmLines(Traces(Split(Printed(outputs, find), "\n")));
      assert forall k :: 0 <= k < |rm| ==> rm[k][0] == 'r';
      var r := RemovalSpec(failing, program, Split(Printed(outputs, find), "\n")).ran;
      assert forall k :: 0 <= k < |r| ==> r[k][0] == 'r';
    }
  }

  /** `apt autoremove` runs exactly when netstat printed a table with a line break and
      every row was handled without an uninstall error. */
  lemma AutoremoveIff(failing: map<string, string>, outputs: map<string, string>, byCommand: bool,
                      a: seq<Answer>)
    ensures Autoremove in RunSpec(failing, outputs, byCommand, a).ran <==>
            Netstat !in failing && '\n' in Printed(outputs, Netstat) &&
            (SplitCount(Printed(outputs, Netstat), '\n');
             Visit(failing, outputs, byCommand, Split(Printed(outputs, Netstat), "\n")[2..], a).err == Success)
  {
    if Netstat !in failing && '\n' in Printed(outputs, Netstat) {
      SplitCount(Printed(outputs, Netstat), '\n');
      AutoremoveNotInRows(failing, outputs, byCommand, Split(Printed(outputs, Netstat), "\n")[2..], a);
    }
  }
}

