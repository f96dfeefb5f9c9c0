/** The service-configuration script: for ssh and for vsftpd in turn, the operator decides
    whether the service runs, and a running service has its configuration file patched
    with the options the operator chooses. */
module Services {
  import opened Base
  import opened GoStrings
  import opened Patcher
  import opened Machine
  import opened Commands
  import opened Inline

  const SshdPath := "/etc/ssh/sshd_config"
  const VsftpdPath := "/etc/vsftpd.conf"

  /** The command line `systemctl <verb> <service>`. */
  function Systemctl(verb: string, service: string): string {
    "systemctl " + verb + " " + service
  }

  /** What `initService` learns from `systemctl status`: the status text, or an error. */
  function Status(h: Host, service: string): Result<string> {
    OutputResult(h.failing, h.outputs, Systemctl("status", service))
  }

  /** Whether `initService` leaves the service running: the operator wants it and its
      status can be got. */
  predicate Enabled(h: Host, service: string, a: seq<Answer>) {
    Confirmed(a) && Status(h, service).Ok?
  }

  /** The error `initService` returns. */
  function InitError(h: Host, service: string, a: seq<Answer>): Outcome {
    if Confirmed(a) && Status(h, service).Err? then
      Failure("unable to get status of " + service + ": " + Status(h, service).message)
    else Success
  }

  /** The command lines `initService` runs. */
  function InitRan(h: Host, service: string, a: seq<Answer>): seq<string> {
    if !Confirmed(a) then [Systemctl("stop", service), Systemctl("disable", service)]
    else if Status(h, service).Err? then [Systemctl("enable", service), Systemctl("status", service)]
    else [Systemctl("enable", service), Systemctl("status", service)] +
         (if Contains(Status(h, service).value, "active (running)") then []
          else [Systemctl("start", service)])
  }

  /** `initService(service)`. Declined: the service is stopped and disabled, whatever those
      commands give, and the answer is false. Accepted: the service is enabled, and started
      only when its status does not read "active (running)"; the answer is true unless the
      status cannot be got. */
  method InitService(h: Host, service: string) returns (enabled: bool, err: Outcome)
    modifies h`answers, h`ran
    ensures h.answers == Rest(old(h.answers))
    ensures enabled == Enabled(h, service, old(h.answers))
    ensures err == InitError(h, service, old(h.answers))
    ensures h.ran == old(h.ran) + InitRan(h, service, old(h.answers))
  {
    var yes := h.Confirm();
    if !yes {
      var _ := RunCommand(h, Systemctl("stop", service));
      var _ := RunCommand(h, Systemctl("disable", service));
      return false, Success;
    }
    var _ := RunCommand(h, Systemctl("enable", service));
    var res := GetCommandOutput(h, Systemctl("status", service));
    if res.Err? {
      return false, Failure("unable to get status of " + service + ": " + res.message);
    }
    if !Contains(res.value, "active (running)") {
      var _ := RunCommand(h, Systemctl("start", service));
    }
    enabled, err := true, Success;
  }

  /** A declined service is stopped and disabled and reported as not enabled, without an
      error; an accepted one is never stopped. */
  lemma DeclinedServiceStopped(h: Host, service: string, a: seq<Answer>)
    ensures !Confirmed(a) ==> !Enabled(h, service, a) && InitError(h, service, a) == Success &&
                              InitRan(h, service, a) == [Systemctl("stop", service), Systemctl("disable", service)]
    ensures Confirmed(a) ==> Systemctl("stop", service) !in InitRan(h, service, a)
  {
    if Confirmed(a) {
      assert Systemctl("stop", service)[10] == 's' && Systemctl("enable", service)[10] == 'e';
      assert Systemctl("status", service)[12] == 'a' && Systemctl("stop", service)[12] == 'o';
      assert Systemctl("start", service)[12] == 'a';
    }
  }

  /** A running service is not started again: "systemctl start" is run exactly when the
      service is enabled and its status lacks "active (running)". */
  lemma StartOnlyWhenNotRunning(h: Host, service: string, a: seq<Answer>)
    ensures (Systemctl("start", service) in InitRan(h, service, a)) <==>
            Enabled(h, service, a) && !Contains(Status(h, service).value, "active (running)")
  {
    assert Systemctl("start", service)[10] == 's' && Systemctl("enable", service)[10] == 'e';
    assert Systemctl("status", service)[12] == 'a' && Systemctl("start", service)[12] == 'a';
    assert Systemctl("status", service)[13] == 't' && Systemctl("start", service)[13] == 'r';
    assert Systemctl("stop", service)[12] == 'o' && Systemctl("disable", service)[10] == 'd';
  }

  /** The sshd options from three answers: root login, password authentication, and a
      port that is set only when one is typed. */
  function SshOptions(a: seq<Answer>): map<string, string> {
    var m := map["PermitRootLogin" := if Confirmed(a) then "yes" else "no",
                 "PasswordAuthentication" := if Confirmed(Skip(a, 1)) then "yes" else "no"];
    var port := Response(Skip(a, 2));
    if port != "" then m["Port" := port] else m
  }

  /** The sshd options hold root login and password authentication, set from the first
      two answers, and the port exactly when one is typed. */
  lemma SshOptionsShape(a: seq<Answer>)
    ensures var m := SshOptions(a);
            m.Keys == {"PermitRootLogin", "PasswordAuthentication"} + (if Response(Skip(a, 2)) != "" then {"Port"} else {}) &&
            m["PermitRootLogin"] == (if Confirmed(a) then "yes" else "no") &&
            m["PasswordAuthentication"] == (if Confirmed(Skip(a, 1)) then "yes" else "no") &&
            ("Port" in m ==> m["Port"] == Response(Skip(a, 2)))
  {
  }

  /** The early return for an empty sshd option map is never taken: the map always holds
      the two yes/no options. */
  lemma SshOptionsNeverEmpty(a: seq<Answer>)
    ensures |SshOptions(a)| >= 2
  {
    SshOptionsShape(a);
    assert {"PermitRootLogin", "PasswordAuthentication"} <= SshOptions(a).Keys;
    assert |{"PermitRootLogin", "PasswordAuthentication"}| == 2;
    SubsetCard({"PermitRootLogin", "PasswordAuthentication"}, SshOptions(a).Keys);
  }

  lemma SubsetCard<T>(a: set<T>, b: set<T>)
    requires a <= b
    ensures |a| <= |b|
  {
    assert b == a + (b - a);
  }

  /** The three sshd prompts. */
  method AskSsh(h: Host) returns (opts: map<string, string>)
    modifies h`answers
    ensures opts == SshOptions(old(h.answers)) && h.answers == Skip(old(h.answers), 3)
  {
    ghost var a := h.answers;
    var root := h.Confirm();
    opts := map["PermitRootLogin" := if root then "yes" else "no"];
    var password := h.Confirm();
    opts := opts["PasswordAuthentication" := if password then "yes" else "no"];
    var port := h.RawResponse();
    if port != "" {
      opts := opts["Port" := port];
    }
  }

  /** The vsftpd options from the answers: anonymous login, TLS (four options that move
      together), anonymous TLS, and a passive port range set only on request, from the two
      answers after that request. */
  function FtpOptions(a: seq<Answer>): map<string, string> {
    var m := FtpFlags(a);
    if Confirmed(Skip(a, 3)) then
      m["pasv_min_port" := Response(Skip(a, 4))]["pasv_max_port" := Response(Skip(a, 5))]
    else m
  }

  /** The options the first three vsftpd prompts set. */
  function FtpFlags(a: seq<Answer>): map<string, string> {
    var tls := if Confirmed(Skip(a, 1)) then "YES" else "NO";
    map["anonymous_enable" := if Confirmed(a) then "YES" else "NO"]
      ["ssl_enable" := tls]["ssl_tlsv1" := tls]["ssl_sslv2" := tls]["ssl_sslv3" := tls]
      ["allow_anon_ssl" := if Confirmed(Skip(a, 2)) then "YES" else "NO"]
  }

  /** The vsftpd options always hold the six yes/no settings, the four TLS ones with
      one value, and the two passive ports exactly when a range was asked for. */
  lemma FtpOptionsShape(a: seq<Answer>)
    ensures var m := FtpOptions(a);
            {"anonymous_enable", "ssl_enable", "ssl_tlsv1", "ssl_sslv2", "ssl_sslv3", "allow_anon_ssl"} <= m.Keys &&
            (forall k :: k in m ==> k in {"anonymous_enable", "ssl_enable", "ssl_tlsv1", "ssl_sslv2",
                                          "ssl_sslv3", "allow_anon_ssl", "pasv_min_port", "pasv_max_port"}) &&
            ("pasv_min_port" in m) == ("pasv_max_port" in m) == Confirmed(Skip(a, 3)) &&
            m["ssl_enable"] == m["ssl_tlsv1"] == m["ssl_sslv2"] == m["ssl_sslv3"] &&
            (forall k :: k in m && k !in {"pasv_min_port", "pasv_max_port"} ==> m[k] in {"YES", "NO"})
  {
  }

  /** How many answers the vsftpd prompts take: six with a passive port range, four
      without. */
  function FtpAnswers(a: seq<Answer>): nat {
    if Confirmed(Skip(a, 3)) then 6 else 4
  }

  /** The firewall rule for the passive port range. */
  function PassiveRule(a: seq<Answer>): string {
    "ufw allow " + Response(Skip(a, 4)) + ":" + Response(Skip(a, 5)) + "/tcp"
  }

  /** The vsftpd prompts, and the firewall rule for a passive port range, whatever it
      gives. */
  method AskFtp(h: Host) returns (opts: map<string, string>)
    modifies h`answers, h`ran
    ensures opts == FtpOptions(old(h.answers))
    ensures h.answers == Skip(old(h.answers), FtpAnswers(old(h.answers)))
    ensures h.ran == old(h.ran) + if Confirmed(Skip(old(h.answers), 3)) then [PassiveRule(old(h.answers))] else []
  {
    ghost var a := h.answers;
    opts := AskFtpFlags(h);
    var pasv := h.Confirm();
    if pasv {
      var minPort := h.RawResponse();
      var maxPort := h.RawResponse();
      opts := opts["pasv_min_port" := minPort]["pasv_max_port" := maxPort];
      var _ := RunCommand(h, "ufw allow " + minPort + ":" + maxPort + "/tcp");
    }
  }

  /** The first three vsftpd prompts. */
  method AskFtpFlags(h: Host) returns (opts: map<string, string>)
    modifies h`answers
    ensures opts == FtpFlags(old(h.answers)) && h.answers == Skip(old(h.answers), 3)
  {
    var anon := h.Confirm();
    opts := map["anonymous_enable" := if anon then "YES" else "NO"];
    var tlsYes := h.Confirm();
    var tls := if tlsYes then "YES" else "NO";
    opts := opts["ssl_enable" := tls]["ssl_tlsv1" := tls]["ssl_sslv2" := tls]["ssl_sslv3" := tls];
    var anonSsl := h.Confirm();
    opts := opts["allow_anon_ssl" := if anonSsl then "YES" else "NO"];
  }

  const AllowSsh := "ufw allow openssh"
  const RestartSshd := "systemctl restart sshd"
  const InitSshFailed := "unable to initialize ssh service: "
  const AllowSshFailed := "unable to allow ssh through firewall: "
  const ReadSshdFailed := "unable to read sshd_config: "
  const WriteSshdFailed := "unable to write sshd_config: "

  /** What `configureSSH` does, from answers `a`, files `f` and run log `r` to answers
      `a'`, files `f'` and run log `r'`, returning `err`. A service the operator does not
      want is left after `initService`; one that runs is set up as `SshSetUp` says. */
  ghost predicate SshSpec(h: Host, a: seq<Answer>, f: map<string, string>, r: seq<string>,
                          a': seq<Answer>, f': map<string, string>, r': seq<string>, err: Outcome)
  {
    if !Enabled(h, "ssh", a) then
      f' == f && a' == Rest(a) && r' == r + InitRan(h, "ssh", a) &&
      err == if InitError(h, "ssh", a).Failure?
             then Failure(InitSshFailed + InitError(h, "ssh", a).message)
             else Success
    else SshSetUp(h, Rest(a), f, r + InitRan(h, "ssh", a), a', f', r', err)
  }

  /** Setting up a running ssh service, from the answers, files and run log left after
      `initService`: ssh is let through the firewall, sshd_config is read, the three
      options are asked for and written with the sshd copy of the patcher, and the
      operator may restart the daemon. */
  ghost predicate SshSetUp(h: Host, a: seq<Answer>, f: map<string, string>, r: seq<string>,
                           a': seq<Answer>, f': map<string, string>, r': seq<string>, err: Outcome)
  {
    var ran := r + [AllowSsh];
    if AllowSsh in h.failing then
      f' == f && a' == a && r' == ran && err == Failure(AllowSshFailed + h.failing[AllowSsh])
    else if SshdPath !in f then
      f' == f && a' == a && r' == ran && err == Failure(ReadSshdFailed + OpenError(SshdPath, NotFound))
    else SshdPatched(h, f[SshdPath], a, f, ran, a', f', r', err)
  }

  /** Patching sshd_config, whose text is `content`: the three options are asked for and
      written, and after a successful write the operator may restart the daemon. */
  ghost predicate SshdPatched(h: Host, content: string, a: seq<Answer>, f: map<string, string>, r: seq<string>,
                              a': seq<Answer>, f': map<string, string>, r': seq<string>, err: Outcome)
  {
    var written := if SshdPath in h.readOnly then Failure(WriteSshdFailed + OpenError(SshdPath, Denied)) else Success;
    WriteEffect(Sshd, content, SshOptions(a), SshdPath, h.readOnly, f, f', written, WriteSshdFailed) &&
      (written.Failure? ==> err == written && a' == Skip(a, 3) && r' == r) &&
      (written.Success? ==>
         err == Success && a' == Skip(a, 4) &&
         r' == r + if Confirmed(Skip(a, 3)) then [RestartSshd] else [])
  }

  /** `configureSSH`. */
  method ConfigureSsh(h: Host) returns (err: Outcome)
    modifies h`files, h`answers, h`ran
    ensures SshSpec(h, old(h.answers), old(h.files), old(h.ran), h.answers, h.files, h.ran, err)
  {
    var enabled, e := InitService(h, "ssh");
    if e.Failure? {
      return Failure(InitSshFailed + e.message);
    }
    if !enabled {
      return Success;
    }
    err := SetUpSsh(h);
  }

  /** The part of `configureSSH` after `initService` has left ssh running. */
  method SetUpSsh(h: Host) returns (err: Outcome)
    modifies h`files, h`answers, h`ran
    ensures SshSetUp(h, old(h.answers), old(h.files), old(h.ran), h.answers, h.files, h.ran, err)
  {
    var fw := RunCommand(h, AllowSsh);
    if fw.Failure? {
      return Failure(AllowSshFailed + fw.message);
    }
    var read := h.ReadFile(SshdPath);
    if read.Err? {
      return Failure(ReadSshdFailed + read.message);
    }
    err := PatchSshd(h, read.value);
  }

  /** The prompts, the write and the restart of `configureSSH`. The early return for an
      empty option map is never taken. */
  method PatchSshd(h: Host, content: string) returns (err: Outcome)
    modifies h`files, h`answers, h`ran
    ensures SshdPatched(h, content, old(h.answers), old(h.files), old(h.ran), h.answers, h.files, h.ran, err)
  {
    ghost var a := h.answers;
    var opts := AskSsh(h);
    if |opts| == 0 {
      SshOptionsNeverEmpty(a);
      assert false;
      return Success;
    }
    var written := WritePatched(h, Sshd, SshdPath, content, opts, WriteSshdFailed);
    ghost var f' := h.files;
    assert WriteEffect(Sshd, content, SshOptions(a), SshdPath, h.readOnly, old(h.files), f', written, WriteSshdFailed);
    assert written == if SshdPath in h.readOnly then Failure(WriteSshdFailed + OpenError(SshdPath, Denied)) else Success;
    if written.Failure? {
      return written;
    }
    var restart := h.Confirm();
    if restart {
      var _ := RunCommand(h, RestartSshd);
    }
    assert h.files == f';
    err := Success;
  }

  const AllowFtp := "ufw allow vsftpd"
  const InitFtpFailed := "unable to initialize vsftpd service: "
  const AllowFtpFailed := "unable to allow ftp through firewall: "
  const ReadVsftpdFailed := "unable to read vsftpd.conf: "
  const WriteVsftpdFailed := "unable to write vsftpd.conf: "

  /** What `configureFTP` does: as for ssh, with vsftpd; a running service is set up as
      `FtpSetUp` says. */
  ghost predicate FtpSpec(h: Host, a: seq<Answer>, f: map<string, string>, r: seq<string>,
                          a': seq<Answer>, f': map<string, string>, r': seq<string>, err: Outcome)
  {
    if !Enabled(h, "vsftpd", a) then
      f' == f && a' == Rest(a) && r' == r + InitRan(h, "vsftpd", a) &&
      err == if InitError(h, "vsftpd", a).Failure?
             then Failure(InitFtpFailed + InitError(h, "vsftpd", a).message)
             else Success
    else FtpSetUp(h, Rest(a), f, r + InitRan(h, "vsftpd", a), a', f', r', err)
  }

  /** Setting up a running vsftpd: its firewall rule, vsftpd.conf and the vsftpd copy of
      the patcher; a passive port range also opens its ports in the firewall, whatever
      that gives. */
  ghost predicate FtpSetUp(h: Host, a: seq<Answer>, f: map<string, string>, r: seq<string>,
                           a': seq<Answer>, f': map<string, string>, r': seq<string>, err: Outcome)
  {
    var ran := r + [AllowFtp];
    if AllowFtp in h.failing then
      f' == f && a' == a && r' == ran && err == Failure(AllowFtpFailed + h.failing[AllowFtp])
    else if VsftpdPath !in f then
      f' == f && a' == a && r' == ran && err == Failure(ReadVsftpdFailed + OpenError(VsftpdPath, NotFound))
    else
      a' == Skip(a, FtpAnswers(a)) &&
      r' == ran + (if Confirmed(Skip(a, 3)) then [PassiveRule(a)] else []) &&
      WriteEffect(Vsftpd, f[VsftpdPath], FtpOptions(a), VsftpdPath, h.readOnly, f, f', err, WriteVsftpdFailed)
  }

  /** `configureFTP`. */
  method ConfigureFtp(h: Host) returns (err: Outcome)
    modifies h`files, h`answers, h`ran
    ensures FtpSpec(h, old(h.answers), old(h.files), old(h.ran), h.answers, h.files, h.ran, err)
  {
    var enabled, e := InitService(h, "vsftpd");
    if e.Failure? {
      return Failure(InitFtpFailed + e.message);
    }
    if !enabled {
      return Success;
    }
    err := SetUpFtp(h);
  }

  /** The part of `configureFTP` after `initService` has left vsftpd running. */
  method SetUpFtp(h: Host) returns (err: Outcome)
    modifies h`files, h`answers, h`ran
    ensures FtpSetUp(h, old(h.answers), old(h.files), old(h.ran), h.answers, h.files, h.ran, err)
  {
    var fw := RunCommand(h, AllowFtp);
    if fw.Failure? {
      return Failure(AllowFtpFailed + fw.message);
    }
    var read := h.ReadFile(VsftpdPath);
    if read.Err? {
      return Failure(ReadVsftpdFailed + read.message);
    }
    var opts := AskFtp(h);
    err := WritePatched(h, Vsftpd, VsftpdPath, read.value, opts, WriteVsftpdFailed);
  }

  /** The ftp half of `Run`: offered, and done when accepted. */
  ghost predicate FtpStage(h: Host, a: seq<Answer>, f: map<string, string>, r: seq<string>,
                           a': seq<Answer>, f': map<string, string>, r': seq<string>, err: Outcome)
  {
    if Confirmed(a) then FtpSpec(h, Rest(a), f, r, a', f', r', err)
    else a' == Rest(a) && f' == f && r' == r && err == Success
  }

  /** `ServiceConfiguration.Run`: ssh first, when the operator asks for it, then ftp; an
      error configuring ssh ends the script before ftp is offered. */
  method Run(h: Host) returns (err: Outcome)
    modifies h`files, h`answers, h`ran
    ensures var a := old(h.answers);
            if Confirmed(a) then
              exists a1, f1, r1, e1 ::
                SshSpec(h, Rest(a), old(h.files), old(h.ran), a1, f1, r1, e1) &&
                (e1.Failure? ==> err == e1 && h.answers == a1 && h.files == f1 && h.ran == r1) &&
                (e1.Success? ==> FtpStage(h, a1, f1, r1, h.answers, h.files, h.ran, err))
            else FtpStage(h, Rest(a), old(h.files), old(h.ran), h.answers, h.files, h.ran, err)
  {
    var ssh := h.Confirm();
    if ssh {
      err := ConfigureSsh(h);
      if err.Failure? {
        return err;
      }
    }
    var ftp := h.Confirm();
    if ftp {
      err := ConfigureFtp(h);
      if err.Failure? {
        return err;
      }
    }
    err := Success;
  }
}
