/** The two network-setup scripts: a fixed list of firewall commands, then nine yes/no
    prompts that each choose a group of kernel settings, written to /etc/sysctl.conf.
    `Network` (script/net_setup.go) carries its own copy of the patcher; `NetworkSetup`
    (script/net.go) hands the settings to `WriteOptsToFile`. */
module NetworkScripts {
  import opened Base
  import opened Machine
  import opened Commands
  import opened Patcher
  import opened Inline
  import opened Config

  const SysctlPath := "/etc/sysctl.conf"
  const DisableIpv6 := "ufw disable ipv6"
  const ReadSysctlFailed := "unable to read /etc/sysctl.conf: "
  const DisableIpv6Failed := "unable to disable IPv6 in UFW: "
  const WriteSysctlFailed := "unable to write new data to /etc/sysctl.conf: "

  /** The firewall commands of `Network.Run`: only installing ufw may fail. */
  const NetworkCommands: seq<LoggedCommand> := [
    LoggedCommand("Installing UFW", "apt install ufw", true),
    LoggedCommand("Enabling UFW Firewall", "ufw enable", false),
    LoggedCommand("Allowing SSH through firewall", "ufw allow ssh", false),
    LoggedCommand("Setting option to reject incoming connections by default", "ufw default reject incoming", false),
    LoggedCommand("Setting option to allow outgoing connections by default", "ufw default allow outgoing", false)
  ]

  /** The firewall commands of `NetworkSetup.RunOnLinux`: only installing ufw may fail. */
  const NetworkSetupCommands: seq<LoggedCommand> := [
    LoggedCommand("Installing UFW", "apt install ufw", true),
    LoggedCommand("Enabling UFW Firewall", "ufw enable", false),
    LoggedCommand("Allowing SSH through firewall", "ufw allow openssh", false),
    LoggedCommand("Setting option to deny incoming connections by default", "ufw default deny incoming", false),
    LoggedCommand("Setting option to allow outgoing connections by default", "ufw default allow outgoing", false)
  ]

  /** Both lists stop at every failure except one of the first step. */
  lemma OnlyInstallIgnorable()
    ensures NetworkCommands[0].ignoreErr && NetworkSetupCommands[0].ignoreErr
    ensures forall i :: 1 <= i < |NetworkCommands| ==> !NetworkCommands[i].ignoreErr
    ensures forall i :: 1 <= i < |NetworkSetupCommands| ==> !NetworkSetupCommands[i].ignoreErr
  {
  }

  /** The settings each prompt chooses, in prompt order; the last prompt disables IPv6. */
  const Settings: seq<map<string, string>> := [
    map["net.ipv4.tcp_syncookies" := "1"],
    map["net.ipv4.tcp_rfc1337" := "1"],
    map["net.ipv4.ip_forward" := "0"],
    map["net.ipv4.conf.all.accept_source_route" := "0", "net.ipv4.conf.default.accept_source_route" := "0"],
    map["net.ipv4.conf.all.send_redirects" := "0", "net.ipv4.conf.default.send_redirects" := "0"],
    map["net.ipv4.conf.all.log_martians" := "1"],
    map["net.ipv4.conf.all.rp_filter" := "1", "net.ipv4.conf.default.rp_filter" := "1"],
    map["net.ipv4.conf.all.accept_redirects" := "0", "net.ipv4.conf.default.accept_redirects" := "0"],
    map["net.ipv6.conf.all.disable_ipv6" := "1", "net.ipv6.conf.default.disable_ipv6" := "1"]
  ]

  /** The settings collected from the prompts of `table`, into `acc`, one answer each. */
  function Gather(acc: map<string, string>, a: seq<Answer>, table: seq<map<string, string>>): map<string, string>
    decreases |table|
  {
    if table == [] then acc
    else Gather(if Confirmed(a) then acc + table[0] else acc, Rest(a), table[1..])
  }

  /** The settings the nine prompts choose. */
  function NetworkOptions(a: seq<Answer>): map<string, string> {
    Gather(map[], a, Settings)
  }

  /** No two prompts choose the same setting. */
  predicate Disjoint(table: seq<map<string, string>>) {
    forall i, j, k :: 0 <= i < j < |table| && k in table[i] ==> k !in table[j]
  }

  /** Prompt `i` of `table` lists setting `k` and is accepted. */
  ghost predicate ChosenAt(a: seq<Answer>, table: seq<map<string, string>>, k: string, i: int) {
    0 <= i < |table| && k in table[i] && Confirmed(Skip(a, i))
  }

  /** Prompt `i + 1` of a table is prompt `i` of the table after the first, asked one
      answer later. */
  lemma ChosenShift(a: seq<Answer>, table: seq<map<string, string>>, k: string)
    requires table != []
    ensures forall i :: 0 <= i ==> (ChosenAt(Rest(a), table[1..], k, i) <==> ChosenAt(a, table, k, i + 1))
  {
    forall i | 0 <= i < |table| - 1
      ensures table[1..][i] == table[i + 1] && Skip(Rest(a), i) == Skip(a, i + 1)
    {
    }
  }

  /** A setting is collected exactly when it was already there or its prompt is accepted,
      and then with the value that prompt lists. */
  lemma {:induction false} GatherMeaning(acc: map<string, string>, a: seq<Answer>,
                                         table: seq<map<string, string>>, k: string)
    requires Disjoint(table)
    requires forall i :: 0 <= i < |table| ==> k in table[i] ==> k !in acc
    ensures k in Gather(acc, a, table) <==> k in acc || exists i :: ChosenAt(a, table, k, i)
    ensures k in acc ==> Gather(acc, a, table)[k] == acc[k]
    ensures forall i :: ChosenAt(a, table, k, i) ==> Gather(acc, a, table)[k] == table[i][k]
    decreases |table|
  {
    if table != [] {
      var acc' := if Confirmed(a) then acc + table[0] else acc;
      assert Gather(acc, a, table) == Gather(acc', Rest(a), table[1..]);
      assert Disjoint(table[1..]) by {
        forall i, j, k' | 0 <= i < j < |table| - 1 && k' in table[1..][i]
          ensures k' !in table[1..][j]
        {
          assert table[1..][i] == table[i + 1] && table[1..][j] == table[j + 1];
        }
      }
      forall i | 0 <= i < |table| - 1 && k in table[1..][i]
        ensures k !in acc'
      {
        assert table[1..][i] == table[i + 1];
        assert k !in table[0];
      }
      GatherMeaning(acc', Rest(a), table[1..], k);
      ChosenShift(a, table, k);
      assert ChosenAt(a, table, k, 0) <==> k in table[0] && Confirmed(a);
      forall i | ChosenAt(a, table, k, i) && i > 0
        ensures ChosenAt(Rest(a), table[1..], k, i - 1)
      {
      }
    }
  }

  /** Each accepted prompt adds exactly its listed settings with their listed values, and a
      declined prompt adds nothing. */
  lemma PromptsChooseSettings(a: seq<Answer>, k: string)
    ensures k in NetworkOptions(a) <==> exists i :: 0 <= i < 9 && k in Settings[i] && Confirmed(Skip(a, i))
    ensures forall i :: 0 <= i < 9 && k in Settings[i] && Confirmed(Skip(a, i)) ==>
              NetworkOptions(a)[k] == Settings[i][k]
  {
    SettingsDisjoint();
    GatherMeaning(map[], a, Settings, k);
  }

  lemma SettingsDisjoint()
    ensures Disjoint(Settings) && |Settings| == 9
  {
    EarlySettingsDisjoint();
    LateSettingsDisjoint();
  }

  lemma EarlySettingsDisjoint()
    ensures forall i, j, k :: 0 <= i < 4 && i < j < 9 && k in Settings[i] ==> k !in Settings[j]
  {
  }

  lemma LateSettingsDisjoint()
    ensures forall i, j, k :: 4 <= i < j < 9 && k in Settings[i] ==> k !in Settings[j]
  {
  }

  /** One prompt of the table: the settings are collected from the next answer on. */
  lemma GatherStep(acc: map<string, string>, a: seq<Answer>, table: seq<map<string, string>>, i: nat)
    requires i < |table|
    ensures Gather(acc, a, table[i..]) ==
            Gather(if Confirmed(a) then acc + table[i] else acc, Rest(a), table[i + 1..])
  {
    assert table[i..][1..] == table[i + 1..];
  }

  /** Prompt `i` of `table`, when `answers` holds what is left after the first `i`: its
      settings are added when accepted, and the settings still to be collected stay the
      same. */
  method AskSetting(h: Host, opts: map<string, string>, table: seq<map<string, string>>, i: nat,
                    ghost a: seq<Answer>)
    returns (opts': map<string, string>, yes: bool)
    requires i < |table| && h.answers == Skip(a, i)
    modifies h`answers
    ensures yes == Confirmed(Skip(a, i)) && h.answers == Skip(a, i + 1)
    ensures opts' == if yes then opts + table[i] else opts
    ensures Gather(opts, Skip(a, i), table[i..]) == Gather(opts', Skip(a, i + 1), table[i + 1..])
  {
    yes := h.Confirm();
    opts' := if yes then opts + table[i] else opts;
    RestSkip(a, i);
    GatherStep(opts, Skip(a, i), table, i);
  }

  /** The nine prompts, in order; `ipv6` is the answer to the last one. */
  method AskNetworkOptions(h: Host) returns (opts: map<string, string>, ipv6: bool)
    modifies h`answers
    ensures opts == NetworkOptions(old(h.answers)) && h.answers == Skip(old(h.answers), 9)
    ensures ipv6 == Confirmed(Skip(old(h.answers), 8))
  {
    SettingsDisjoint();
    opts, ipv6 := AskEach(h, Settings);
  }

  /** Three consecutive prompts of `table`, from prompt `i` on; `last` is the answer to
      the third. */
  method AskThree(h: Host, opts: map<string, string>, table: seq<map<string, string>>, i: nat,
                  ghost a: seq<Answer>)
    returns (opts': map<string, string>, last: bool)
    requires i + 3 <= |table| && h.answers == Skip(a, i)
    modifies h`answers
    ensures h.answers == Skip(a, i + 3) && last == Confirmed(Skip(a, i + 2))
    ensures Gather(opts, Skip(a, i), table[i..]) == Gather(opts', Skip(a, i + 3), table[i + 3..])
  {
    var o1, o2, y;
    o1, y := AskSetting(h, opts, table, i, a);
    o2, y := AskSetting(h, o1, table, i + 1, a);
    opts', last := AskSetting(h, o2, table, i + 2, a);
  }

  /** The yes/no prompts of a nine-entry table, one after the other. */
  method AskEach(h: Host, table: seq<map<string, string>>) returns (opts: map<string, string>, last: bool)
    requires |table| == 9
    modifies h`answers
    ensures opts == Gather(map[], old(h.answers), table) && h.answers == Skip(old(h.answers), 9)
    ensures last == Confirmed(Skip(old(h.answers), 8))
  {
    ghost var a := h.answers;
    assert table[0..] == table && h.answers == Skip(a, 0);
    var o3, o6;
    o3, last := AskThree(h, map[], table, 0, a);
    o6, last := AskThree(h, o3, table, 3, a);
    opts, last := AskThree(h, o6, table, 6, a);
    assert table[9..] == [];
  }

  /** The command lines the firewall list starts on this machine. */
  function Ran(h: Host, cmds: seq<LoggedCommand>): seq<string> {
    Lines(cmds[..Started(h.failing, cmds)])
  }

  /** `Network.Run` (script/net_setup.go). A firewall step that stops the list ends the
      script before anything is read or asked; then the kernel settings are chosen and
      written as `ConfigureSysctl` says. */
  method NetworkRun(h: Host) returns (err: Outcome)
    modifies h`files, h`answers, h`ran
    ensures FirstFatal(h.failing, NetworkCommands) < |NetworkCommands| ==>
              err == RunnerOutcome(h.failing, NetworkCommands) && h.files == old(h.files) &&
              h.answers == old(h.answers) && h.ran == old(h.ran) + Ran(h, NetworkCommands)
    ensures FirstFatal(h.failing, NetworkCommands) == |NetworkCommands| ==>
              SysctlEffect(h, old(h.files), old(h.answers), old(h.ran) + Ran(h, NetworkCommands), err)
  {
    err := ExecuteLoggedCommands(h, NetworkCommands);
    if err.Failure? {
      return;
    }
    err := ConfigureSysctl(h);
  }

  /** The effect of the kernel-settings half of `Network.Run` on a machine whose files,
      answers and started command lines were `files`, `a` and `ran` before it:
      sysctl.conf is read before the prompts; disabling IPv6 also runs
      `ufw disable ipv6`, and its failure ends the script before the file is written. */
  ghost predicate SysctlEffect(h: Host, files: map<string, string>, a: seq<Answer>, ran: seq<string>,
                               err: Outcome)
    reads h
  {
    if SysctlPath !in files then
      err == Failure(ReadSysctlFailed + OpenError(SysctlPath, NotFound)) &&
      h.files == files && h.answers == a && h.ran == ran
    else
      SysctlApplied(h, files, a, ran, err)
  }

  /** The effect once the kernel settings file has been read: the nine prompts, the
      optional IPv6 firewall command, and the write of the patched file. */
  ghost predicate SysctlApplied(h: Host, files: map<string, string>, a: seq<Answer>, ran: seq<string>,
                                err: Outcome)
    requires SysctlPath in files
    reads h
  {
    var ipv6 := Confirmed(Skip(a, 8));
    h.answers == Skip(a, 9) &&
    h.ran == ran + (if ipv6 then [DisableIpv6] else []) &&
    if ipv6 && DisableIpv6 in h.failing then
      err == Failure(DisableIpv6Failed + h.failing[DisableIpv6]) && h.files == files
    else
      WriteEffect(Sysctl, files[SysctlPath], NetworkOptions(a), SysctlPath, h.readOnly,
                  files, h.files, err, WriteSysctlFailed)
  }

  /** The kernel-settings half of `Network.Run`. */
  method ConfigureSysctl(h: Host) returns (err: Outcome)
    modifies h`files, h`answers, h`ran
    ensures SysctlEffect(h, old(h.files), old(h.answers), old(h.ran), err)
  {
    var read := h.ReadFile(SysctlPath);
    if read.Err? {
      return Failure(ReadSysctlFailed + read.message);
    }
    err := PatchSysctl(h, read.value);
  }

  /** Everything `ConfigureSysctl` does once the file has been read as `content`. */
  method PatchSysctl(h: Host, content: string) returns (err: Outcome)
    requires SysctlPath in h.files && h.files[SysctlPath] == content
    modifies h`files, h`answers, h`ran
    ensures SysctlApplied(h, old(h.files), old(h.answers), old(h.ran), err)
  {
    var opts, ipv6 := AskNetworkOptions(h);
    err := DisableIpv6Step(h, ipv6);
    if err.Failure? {
      return;
    }
    err := WritePatched(h, Sysctl, SysctlPath, content, opts, WriteSysctlFailed);
  }

  /** `ufw disable ipv6`, run only when the operator chose to disable IPv6. */
  method DisableIpv6Step(h: Host, ipv6: bool) returns (err: Outcome)
    modifies h`ran
    ensures h.ran == old(h.ran) + (if ipv6 then [DisableIpv6] else [])
    ensures err == if ipv6 && DisableIpv6 in h.failing then Failure(DisableIpv6Failed + h.failing[DisableIpv6])
                   else Success
  {
    if ipv6 {
      var disabled := RunCommand(h, DisableIpv6);
      if disabled.Failure? {
        return Failure(DisableIpv6Failed + disabled.message);
      }
    }
    err := Success;
  }

  /** `NetworkSetup.RunOnLinux` (script/net.go): the same prompts, the settings handed to
      `WriteOptsToFile` with separator " = ", and no IPv6 firewall command. */
  method NetworkSetupRun(h: Host) returns (err: Outcome)
    modifies h`files, h`answers, h`ran
    ensures h.ran == old(h.ran) + Ran(h, NetworkSetupCommands)
    ensures FirstFatal(h.failing, NetworkSetupCommands) < |NetworkSetupCommands| ==>
              err == RunnerOutcome(h.failing, NetworkSetupCommands) && h.files == old(h.files) &&
              h.answers == old(h.answers)
    ensures FirstFatal(h.failing, NetworkSetupCommands) == |NetworkSetupCommands| ==>
              h.answers == Skip(old(h.answers), 9) &&
              WriteOptsEffect(h.readOnly, NetworkOptions(old(h.answers)), " = ", SysctlPath,
                              old(h.files), h.files, err)
  {
    err := ExecuteLoggedCommands(h, NetworkSetupCommands);
    if err.Failure? {
      return;
    }
    ghost var before := h.files;
    var opts, _ := AskNetworkOptions(h);
    var leftover;
    err, leftover := WriteOptsToFile(h, opts, " = ", SysctlPath);
    assert WriteOptsEffect(h.readOnly, opts, " = ", SysctlPath, before, h.files, err);
  }

  /** The firewall commands of `NetworkSetup.RunOnWindows`: the firewall is switched on,
      and inbound connections are blocked by default only when the operator asks. */
  function WindowsCommands(block: bool): seq<LoggedCommand> {
    [LoggedCommand("Enabling Windows Firewall", "netsh advfirewall set allprofiles state on", false)] +
    if block then [LoggedCommand("Disabling inbound connections by default",
                                 "netsh advfirewall set allprofiles firewallpolicy blockinbound,allowoutbound", false)]
    else []
  }

  /** `NetworkSetup.RunOnWindows`. */
  method NetworkSetupRunWindows(h: Host) returns (err: Outcome)
    modifies h`answers, h`ran
    ensures var cmds := WindowsCommands(Confirmed(old(h.answers)));
            h.answers == Rest(old(h.answers)) &&
            h.ran == old(h.ran) + Ran(h, cmds) &&
            err == if FirstFatal(h.failing, cmds) < |cmds|
                   then Failure("unable to set up network: " + RunnerOutcome(h.failing, cmds).message)
                   else Success
  {
    var block := h.Confirm();
    var cmds := WindowsCommands(block);
    var e := ExecuteLoggedCommands(h, cmds);
    if e.Failure? {
      return Failure("unable to set up network: " + e.message);
    }
    err := Success;
  }
  /** The commands of `Firewall.Run` (script/network.go): installing and enabling ufw may
      both fail without stopping the list. */
  const FirewallCommands: seq<LoggedCommand> := [
    LoggedCommand("Installing UFW", "apt install ufw", true),
    LoggedCommand("Enabling UFW Firewall", "ufw enable", true),
    LoggedCommand("Allowing SSH through firewall", "ufw allow ssh", false),
    LoggedCommand("Setting option to reject incoming connections by default", "ufw default reject incoming", false),
    LoggedCommand("Setting option to allow outgoing connections by default", "ufw default allow outgoing", false)
  ]

  /** `Firewall.Run`: the list as the logged runner runs it. */
  method FirewallRun(h: Host) returns (err: Outcome)
    modifies h`ran
    ensures h.ran == old(h.ran) + Ran(h, FirewallCommands)
    ensures err == RunnerOutcome(h.failing, FirewallCommands)
  {
    err := ExecuteLoggedCommands(h, FirewallCommands);
  }

  /** A machine on which ufw can be neither installed nor enabled still has the three
      rules started, and the script succeeds when they do. */
  lemma FirewallPastFailedSetup(failing: map<string, string>)
    requires "apt install ufw" in failing && "ufw enable" in failing
    requires "ufw allow ssh" !in failing && "ufw default reject incoming" !in failing
    requires "ufw default allow outgoing" !in failing
    ensures FirstFatal(failing, FirewallCommands) == |FirewallCommands|
    ensures Lines(FirewallCommands[..Started(failing, FirewallCommands)])
            == ["apt install ufw", "ufw enable", "ufw allow ssh", "ufw default reject incoming",
                "ufw default allow outgoing"]
  {
    RunnerSucceedsIff(failing, FirewallCommands);
    assert FirewallCommands[..|FirewallCommands|] == FirewallCommands;
  }
}
