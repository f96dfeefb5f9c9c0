# simple-osharden, modelled in Dafny

A model of the core of `simple-osharden`, a Go tool that hardens a Linux (or Windows)
machine by running small interactive scripts. The model covers:

- **The configuration-directive patcher and its six copies.** `utils.WriteOptsToFile` and
  the inline copies in the password, service and network scripts each split a file on
  `"\n"`, rewrite the first line whose key is desired, delete that key from the desired
  map, append a line for every key left, and join the lines again.
  - Module `Directives` states that loop once, for an arbitrary treatment of single lines.
  - Module `Patcher` gives each copy's treatment (`Dialect`) and the imperative method
    that runs the loop in place.
  - Modules `Config` and `Inline` add the file handling around it.
- **The script registry** (`Registry.Pool`, a class over the package-level map).
- **The logged-command runner, the command tokeniser and the confirmation gate**
  (`Commands`).
- **The scripts that use these parts:**
  - `PasswordPolicy`: login.defs and pwquality.conf.
  - `Services`: ssh and vsftpd, with `initService`.
  - `NetworkScripts`: the sysctl scripts and the firewall command lists.
  - `ListeningApps`: the netstat parser and the uninstall loop.
  - `ResolvConf`: the two nameserver editors.
- **The parsers and counters of `main.go`** (`Harden`): the media-file count over a
  directory tree, the yes/no classifier, the `getent group sudo` parser, the
  `net localgroup Administrators` parser, and the choice of home directory.

The machine the scripts act on is the class `Machine.Host`. It holds:

- `files`: the contents of every file that exists;
- `answers`: the operator's answers still to come, in order;
- `ran`: the command lines started so far.

What the operating system decides is fixed when the host is built:

- the files that cannot be written;
- the command lines whose program fails, each with the text of its error (`exit status 1`,
  an `exec:` lookup error, and so on);
- what each command line prints. A line with no recorded output prints nothing, so
  collecting its output gives `Ok("")`.

Go's `strings` functions the code relies on are modelled in `GoStrings`, with Go's exact
edge cases:

- `Split` of a string without the separator;
- empty pieces;
- `ReplaceAll` as `Remove`;
- Unicode white space in `TrimSpace` and `Fields`.

Go's `range` over a map visits keys in an unspecified order. Every statement about
appended keys therefore quantifies over an `order`: a duplicate-free sequence of the
leftover keys (`Directives.IsOrdering`).

The model follows the code where the code is surprising. The main cases:

- Only the first line with a desired key is rewritten.
- An input ending in `"\n"` has its appended lines follow an empty line, and the written
  text no longer ends in `"\n"`.
- The pwquality copy re-keys its own output with one more space each run, so it is not
  idempotent.
- The sysctl copy never activates a commented line.
- The vsftpd and sysctl copies need no separator on a line.
- The nameserver removal deletes every occurrence of `line + "\n"`, including inside
  comments. It offers lines of the file as first read.
- The two nameserver loops read the same answers differently after an invalid address.
- An unreadable directory counts -1 into its parent's total.
- netstat output without a line break makes `[2:]` panic; the model returns that as an
  error.

## Model

| member | source | states |
|---|---|---|
| Machine.ReadResult | utils/config.go:36-41 | `os.ReadFile` succeeds exactly for an existing file, with its content; otherwise the "no such file" error of that path |
| Machine.Host.ReadFile | script/dns.go:29-32 | reading a file gives `ReadResult` of the current files |
| Machine.Host.OpenReadWrite | script/network.go:53-63 | opening for read-write fails for a missing file and for one that cannot be written, otherwise yields the content |
| Machine.Host.WriteFile | utils/config.go:74-76 | a write replaces exactly that file's content, or fails with permission denied and changes nothing |
| Machine.Host.Exec | script/command.go:49-52 | running a command line appends it to the log and gives `RunResult`: it fails exactly when the line fails, with that line's error text |
| Machine.Host.ExecOutput | script/command.go:55-60 | collecting output appends the line to the log and gives `OutputResult`: the line's error when it fails, otherwise what it prints, `""` when nothing is recorded |
| Machine.RunResult | script/command.go:49-52 | `Run` fails exactly for a failing command line, and its error is that line's error text |
| Machine.Printed | script/command.go:58 | what a line that runs to completion prints: its recorded output, or nothing |
| Machine.OutputResult | script/command.go:55-60 | `Output` gives an error exactly when the line fails, with the same text `Run` gives; otherwise the recorded output, or `""` when none is recorded |
| Machine.Host.Confirm | script/command.go:64 | a yes/no prompt takes one answer and is accepted only by `Yes` |
| Machine.Host.RawResponse | script/dns.go:67 | a free-text prompt takes one answer and gives its text, empty if none |
| Machine.Host.RawResponseWithDefault | script/password_setup.go:30 | a prompt with a default takes one answer and gives its text, or the default when nothing is typed |
| Machine.Rest | script/command.go:64 | a prompt consumes exactly one answer when one is left |
| Machine.RestSkip | script/services.go:164-179 | consecutive prompts consume consecutive answers |
| GoStrings.JoinSplit | utils/config.go:50-74 | joining the pieces of a split with the same separator gives the text back |
| GoStrings.SplitJoin | script/command.go:50 | splitting pieces joined by a character none of them holds gives the pieces back |
| GoStrings.SplitTrailing | utils/config.go:50 | a text ending in the separator splits into its pieces plus one empty piece |
| GoStrings.SplitCount | script/net_apps.go:43-44 | a split on a character has one piece more than the character's occurrences; with one occurrence the two pieces surround it |
| GoStrings.SplitHead | script/net_apps.go:43-48 | the first piece is the text before the first separator, and there are two or more pieces exactly when the separator occurs |
| GoStrings.Index | script/command.go:50 | the first occurrence of a pattern, or -1 exactly when there is none |
| GoStrings.RemoveChar | utils/config.go:56 | deleting every copy of a character leaves none of it and keeps every other character |
| GoStrings.RemoveFirst | main.go:311 | `strings.Replace(s, pat, "", 1)` deletes the first occurrence only, or nothing when there is none; putting the pattern back where it was gives the text again |
| GoStrings.TrimSpaceFixed | script/password_setup.go:114 | `TrimSpace` leaves a text unchanged exactly when it has no white space at either end |
| GoStrings.TrimSpaceTrimmed | main.go:265 | the result of `TrimSpace` has no white space at either end |
| GoStrings.Fields | script/net_apps.go:36 | every field is a non-empty run of non-space characters |
| GoStrings.FieldsJoin | script/net_apps.go:36 | words joined by single spaces come apart into the same words |
| GoStrings.ToLower | main.go:426 | lowering keeps the length and lowers exactly the ASCII capitals |
| GoStrings.HasPrefix | script/dns.go:37 | `strings.HasPrefix`: the text starts with the prefix |
| GoStrings.Contains | main.go:311 | `strings.Contains`, defined by Go as `Index >= 0`: the pattern occurs somewhere |
| GoStrings.Split | utils/config.go:50 | `strings.Split`: the pieces between non-overlapping occurrences, left to right; a non-empty separator always gives at least one piece |
| GoStrings.Join | utils/config.go:74 | `strings.Join`: the pieces with the separator between each two |
| GoStrings.Remove | script/dns.go:47 | `strings.ReplaceAll(s, pat, "")` deletes every non-overlapping occurrence, left to right, and never lengthens the text |
| GoStrings.TrimSpace | main.go:265 | `strings.TrimSpace`: the text without white space at either end |
| GoStrings.RemoveAligned | script/dns.go:47 | deleting a whole-line pattern from a text cut at a line boundary deletes it from each part separately |
| GoStrings.RemoveCopies | script/dns.go:47 | with two copies of a line pattern each starting a line, deleting the pattern removes both and edits the text around them as on its own |
| GoStrings.Terminate | script/dns.go:47 | a text of whole lines, each followed by its line break |
| GoStrings.Without | script/dns.go:47 | the lines other than a given one, in order: none is that line, and every other line is kept |
| GoStrings.RemoveWholeLines | script/dns.go:47 | deleting `line + "\n"` from a text of whole lines removes every copy of that line and keeps every other line in order, provided no other line ends with it |
| GoStrings.NotInJoin | main.go:311 | pieces that lack a pattern without the separator still lack it once joined |
| GoStrings.IndexAfterSeparator | main.go:311 | a pattern absent before a separator is first found right after it |
| GoStrings.FreeFront | main.go:311 | a pattern whose first character a text lacks is first found right after that text |
| GoStrings.ContainsAcross | main.go:311 | a pattern without the separator that occurs in `a + sep + b` occurs in `a` or in `b` |
| Commands.Tokenize | script/command.go:50-51 | the program holds no space, and program and arguments joined by single spaces are the command line |
| Commands.TokenizeJoin | script/command.go:50-51 | space-free pieces joined by spaces tokenize to the first as program and the rest, empty ones included, as arguments |
| Commands.RunCommand | script/command.go:49-52 | the command line is started once and its failure is returned |
| Commands.GetCommandOutput | script/command.go:55-60 | the command line is started once and its output or error returned |
| Commands.FirstFatal | script/command.go:27-32 | the position of the first command that fails without `IgnoreErr`, or the length when there is none |
| Commands.RunnerOutcome | script/command.go:19-36 | the runner returns an error exactly when some command fails without `IgnoreErr`, and that error is the first such command's own error |
| Commands.Started | script/command.go:20-33 | the runner starts every command up to and including the first fatal one, never more than the list holds |
| Commands.Lines | script/command.go:20-22 | the command lines of a list, in list order |
| Commands.ExecuteLoggedCommands | script/command.go:19-36 | commands are started in order up to and including the first fatal one, and an error is returned exactly when there is one |
| Commands.NoFatalBefore | script/command.go:20-32 | with no fatal command before position i, the first fatal one is at i or later |
| Commands.RunnerSucceedsIff | script/command.go:23-35 | the runner succeeds exactly when every command succeeds or has its failure ignored; an empty list succeeds |
| Commands.RunnerStopsAtFirstFatal | script/command.go:32 | at the first fatal command the runner has started every earlier command and that one, and nothing after it |
| Commands.IgnoredFailureContinues | script/command.go:27-30 | an ignored failure does not stop the runner: the next command is started too |
| Commands.ConfirmCommand | script/command.go:63-69 | a declined command is not started and counts as success; a confirmed one is run and its result returned |
| Registry.Lookup | script/script.go:31-38 | a lookup finds exactly the registered names, with the script registered under them |
| Registry.Pool.Init | script/script.go:7-11 | after package initialisation the pool maps "firewall" to `Firewall` |
| Registry.Pool.AvailableScripts | script/script.go:26-28 | the pool itself is returned, not a copy |
| Registry.Pool.GetScript | script/script.go:31-38 | the script registered under the name, or nil |
| Registry.Pool.RegisterScript | script/script.go:41-43 | registering sets the entry for the given name, overwriting it, and leaves the rest of the pool unchanged |
| Registry.RegisterThenLookup | script/script.go:32-42 | after registering s under a name, that name looks up s and every other name looks up as before |
| Registry.NeverRegistered | script/script.go:33-35 | a name never registered looks up as nil |
| Registry.KeyedByArgument | script/script.go:41-43 | the key is the name argument, not the script's own name |
| Registry.SeenThroughEarlierView | script/script.go:26-28 | a registration after `AvailableScripts` is visible through its earlier result |
| Base.AppendAssoc | script/net_setup.go:45-83 | concatenation of sequences is associative, so settings and lines collected in pieces can be regrouped |
| Directives.Pass | utils/config.go:51-66 | the rewrite loop keeps the number of lines and leaves only keys that were desired |
| Directives.Step | utils/config.go:52-65 | one iteration of the rewrite loop: a line with a desired key is rewritten and its key deleted; any other line and the map are left |
| Directives.Output | utils/config.go:50-74 | the written text: the input split on `"\n"`, rewritten, the leftover keys appended in a visiting order, joined with `"\n"` |
| Directives.PassMeaning | utils/config.go:51-66 | line i becomes the rewrite exactly when it is the first line with a desired key; the keys left are the desired keys no line carries, with their values |
| Directives.LineKept | utils/config.go:56-63 | non-interference: a line whose key is not desired, or that is skipped, including a commented line, is written back byte for byte |
| Directives.LaterMatchKept | utils/config.go:62-65 | first match only: a later line with an already-seen key is left unchanged |
| Directives.FirstMatchRewritten | utils/config.go:62-65 | the first line with a desired key is rewritten with its value, and that key is not appended |
| Directives.Entries | utils/config.go:69-71 | the appended lines are the entries of the leftover keys, in the visiting order, with their values |
| Directives.AppendedOnce | utils/config.go:69-71 | append exactly once: a desired key no line carries is appended once, with its value, in any visiting order |
| Directives.OrderingSize | utils/config.go:69-71 | a visiting order of the leftover keys lists as many keys as there are |
| Directives.RestValue | utils/config.go:64 | a leftover key keeps the value it was desired with |
| Directives.AppliedKeys | utils/config.go:63-71 | for a key-preserving rewrite, the output lines carry the input lines' keys, followed by one line per leftover key |
| Directives.AppliedEntry | utils/config.go:69-71 | the j-th appended line is the entry of the j-th leftover key |
| Directives.AppliedCovers | utils/config.go:62-71 | every desired key is carried by some output line |
| Directives.FirstLineOfApplied | utils/config.go:62-71 | the first output line carrying a desired key is the line rewritten for it or the one appended for it |
| Directives.Reapply | utils/config.go:56-71 | for reapplicable rewrites, a second rewrite pass over one application's lines changes nothing and leaves no key |
| Directives.AppliedFree | utils/config.go:63-71 | with newline-free input lines and options, no output line holds a newline |
| Directives.OutputSplits | utils/config.go:50-74 | splitting the written text gives back the lines it was joined from |
| Directives.SecondRunIsNoOp | utils/config.go:50-74 | conditional idempotence: applying the same options to the written text changes no line, appends nothing and writes the same text |
| Directives.AppliedNoLeftover | utils/config.go:69-71 | with no key left the output is the rewritten lines alone |
| Directives.OutputLineCount | utils/config.go:50-74 | the written text has the input's lines one for one plus one line per leftover key, and no more leftover keys than desired ones |
| Directives.OutputCoversKeys | utils/config.go:50-74 | every desired key is carried by a line of the written text |
| Patcher.ApplyDirectives | utils/config.go:50-74 | the patched text is the shared loop's output for some visiting order of the leftover keys, and the leftover map is what the rewrite loop left |
| Patcher.Candidate | utils/config.go:52-60 | which lines a copy inspects: the generic copy skips empty lines and lines without the separator; the other copies have their own tests |
| Patcher.Head | utils/config.go:56-57 | the text a copy keeps before the joiner: for the generic copy, the `#`-free text before the first separator |
| Patcher.LineKey | utils/config.go:62 | the key a copy looks up: the head, trimmed by the generic and pwquality copies; none for a skipped line |
| Patcher.RewriteLine | utils/config.go:63 | a matched line becomes its head, the joiner and the desired value |
| Patcher.Entry | utils/config.go:70 | an appended line is the key, the joiner and the value |
| Patcher.RewriteLines | utils/config.go:51-66 | the in-place loop over `lines` produces the rewrite pass's lines and remaining keys |
| Patcher.RewriteOne | utils/config.go:52-65 | one iteration rewrites a matched line and deletes its key, or leaves both |
| Patcher.AppendLeftovers | utils/config.go:69-71 | the append loop adds the entries of all leftover keys in some visiting order |
| Patcher.StripHead | utils/config.go:56-63 | the kept head of a matched line is the `#`-free text before the first separator, so a commented directive becomes active |
| Patcher.SameJoinerRewrite | utils/config.go:62-63 | a line rewritten by a copy that joins with its own separator is still a candidate, keeps its head and key, and is a fixed point of a second rewrite |
| Patcher.PwQualityLine | script/password_setup.go:109-115 | `h = value` is a pwquality candidate whose head is `h` plus a space and whose key is `h` trimmed |
| Patcher.PwQualityRewrite | script/password_setup.go:114-115 | a rewritten pwquality line keeps its key, but its head gains one space |
| Patcher.VsftpdRewrite | script/services.go:119-127 | a rewritten vsftpd line keeps its key and is a fixed point of a second rewrite |
| Patcher.SshdRewrite | script/services.go:186-202 | a rewritten sshd line keeps its key and is a fixed point of a second rewrite |
| Patcher.SysctlEntryHead | script/net_setup.go:97-106 | an appended `k = v` sysctl line is keyed by `k` again |
| Patcher.SysctlEntrySpaces | script/net_setup.go:97 | deleting the spaces of `k = v` leaves `k=` and the space-free value |
| Patcher.SysctlRewrite | script/net_setup.go:97-99 | a rewritten sysctl line keeps its key and is a fixed point of a second rewrite |
| Patcher.RewriteStable | utils/config.go:62-63 | every copy but pwquality rewrites a line to one with the same key that a second rewrite leaves unchanged |
| Patcher.RewriteKeepsKey | utils/config.go:62-63 | every copy, pwquality included, rewrites a line to one with the same key |
| Patcher.GenericEntry | utils/config.go:69-71 | an appended `key+sep+value` line is a candidate headed by the key |
| Patcher.LoginDefsEntry | script/password_setup.go:86-88 | an appended `opt val` login.defs line is a candidate headed by the key |
| Patcher.PwQualityEntry | script/password_setup.go:121-123 | an appended `opt = val` pwquality line is keyed by the key |
| Patcher.EntryKey | utils/config.go:69-71 | every copy finds the appended line's key again, for well-formed keys |
| Patcher.EntryStable | utils/config.go:62-71 | a rewrite leaves an appended line unchanged, except in pwquality |
| Patcher.DialectKeepsKeys | utils/config.go:56-71 | every copy preserves keys on rewritten and appended lines, for well-formed options |
| Patcher.DialectReapplicable | utils/config.go:56-71 | every copy but pwquality meets the conditions of a no-op second run, for well-formed options |
| Patcher.DialectKeepsLines | utils/config.go:63-71 | no copy introduces a newline into a line when the options hold none |
| Patcher.LineCount | utils/config.go:50-74 | every copy writes the input's lines one for one plus one per leftover key |
| Patcher.Idempotent | utils/config.go:56-71 | conditional idempotence: for a non-empty `#`-free separator and well-formed keys, every copy but pwquality leaves its own output unchanged |
| Patcher.AllKeysPresent | utils/config.go:62-71 | every copy writes back a line carrying each desired key |
| Patcher.PwQualityDrift | script/password_setup.go:114-115 | rewriting a rewritten pwquality line adds one more space before ` = ` |
| Patcher.PwQualityWrittenGrows | script/password_setup.go:114-115 | on its own output, the first line with a desired key is rewritten one character longer |
| Patcher.FirstLineGrows | script/password_setup.go:114-115 | a pass whose first match grows changes the lines |
| Patcher.PwQualityNotIdempotent | script/password_setup.go:102-123 | provable non-idempotence: a second pwquality run with a desired key changes its own output |
| Patcher.SshdKey | script/services.go:191-197 | `key value` and `#key value` are both sshd lines keyed by `key` |
| Patcher.CommentedDirectiveActivated | script/services.go:186-211 | a commented `#key current` line in sshd_config becomes `key value`, and nothing is appended |
| Patcher.ActivatedPass | script/services.go:186-202 | the rewrite pass over a commented sshd directive activates it and leaves no key |
| Patcher.TrailingLineKept | utils/config.go:50-52 | the empty last piece of a text ending in `"\n"` is skipped and kept, so appended lines follow an empty line |
| Patcher.EmptyLineKey | utils/config.go:52-54 | an empty line is skipped by every copy but sysctl, which looks up the empty key |
| Patcher.NoFinalNewline | utils/config.go:69-74 | when a key is appended the written text no longer ends in `"\n"` |
| Config.WriteOptsToFile | utils/config.go:36-79 | a missing file changes nothing and is reported; otherwise the file becomes its text patched with the options, unless it cannot be written; the caller's map keeps exactly the appended keys |
| Config.WriteOptsEffect | utils/config.go:36-79 | the effect `WriteOptsToFile` promises: a missing file is reported and nothing changes; an unwritable one is reported unchanged; otherwise the file becomes its patched text |
| Inline.WritePatched | script/password_setup.go:86-93 | the read text, patched by the script's copy, is written back, or the write error is returned under the script's message |
| Inline.PatchFile | script/password_setup.go:61-93 | read, patch and write back, each failure reported under the script's own message |
| Inline.Patched | script/password_setup.go:86-93 | the new files are the old ones with the path replaced by its text patched by the script's copy, in some visiting order |
| Inline.PatchEffect | script/password_setup.go:61-93 | the effect of read, patch and write back: a missing file is reported under the read message and nothing changes; an unwritable one under the write message; otherwise the file is patched |
| PasswordPolicy.LoginDefsOptions | script/password_setup.go:30-33 | the login.defs map holds exactly PASS_MIN_DAYS, PASS_MAX_DAYS, ENCRYPT_METHOD and LOGIN_RETRIES |
| PasswordPolicy.RecommendedDefaults | script/password_setup.go:30-33 | an operator who types nothing gets 7, 30, SHA512 and 3 |
| PasswordPolicy.PwQualityOptions | script/password_setup.go:35-58 | the pwquality map holds minlen, four credits that are all -1 or all 0, and dictcheck and usercheck set to 1 or 0 by their prompts |
| PasswordPolicy.AskLoginDefs | script/password_setup.go:30-33 | the four prompts build the login.defs map and take four answers |
| PasswordPolicy.AskPwQuality | script/password_setup.go:35-58 | the four prompts build the pwquality map and take four answers |
| PasswordPolicy.Run | script/password_setup.go:26-131 | login.defs is patched and written before pwquality.conf is read; a failure of the first ends the script; a later failure leaves login.defs changed |
| Services.InitService | script/services.go:39-63 | `initService` takes one answer, runs the systemctl lines its decision needs and reports whether the service is kept |
| Services.SshOptions | script/services.go:164-179 | the sshd options from three answers: root login and password authentication as yes/no, and Port only when one is typed |
| Services.FtpOptions | script/services.go:84-113 | the vsftpd options from the answers, with the passive port range only on request |
| Services.SshSpec | script/services.go:144-220 | what `configureSSH` does to answers, files and commands: an unwanted service stops after `initService`; a running one is set up |
| Services.FtpSpec | script/services.go:65-142 | the same for `configureFTP`, with vsftpd |
| Services.DeclinedServiceStopped | script/services.go:41-48 | a declined service is stopped and disabled and reported as not enabled, without error; an accepted one is never stopped |
| Services.StartOnlyWhenNotRunning | script/services.go:50-62 | `systemctl start` runs exactly when the service is kept and its status lacks "active (running)" |
| Services.SshOptionsShape | script/services.go:164-179 | sshd options always hold PermitRootLogin and PasswordAuthentication as yes/no, and Port exactly for a non-empty response |
| Services.SshOptionsNeverEmpty | script/services.go:181-183 | the early return for an empty sshd map is never taken |
| Services.AskSsh | script/services.go:164-179 | the three sshd prompts build the sshd options |
| Services.FtpOptionsShape | script/services.go:84-113 | vsftpd options hold the six yes/no settings, the four TLS ones with one value, and the passive ports exactly on request |
| Services.AskFtp | script/services.go:84-116 | the vsftpd prompts build the options; a passive range also runs its firewall rule |
| Services.AskFtpFlags | script/services.go:84-107 | the first three vsftpd prompts set the yes/no options |
| Services.ConfigureSsh | script/services.go:144-220 | `configureSSH` as a whole: initialisation, firewall rule, read, prompts, patch of sshd_config, optional restart, each failure returned |
| Services.SetUpSsh | script/services.go:155-219 | the steps after ssh is kept |
| Services.PatchSshd | script/services.go:164-217 | the sshd prompts, the patched write and the optional restart |
| Services.ConfigureFtp | script/services.go:65-142 | `configureFTP` as a whole, with the vsftpd copy of the patcher |
| Services.SetUpFtp | script/services.go:75-141 | the steps after vsftpd is kept |
| Services.Run | script/services.go:22-36 | ssh is configured when asked for, then ftp is offered; an ssh error ends the script first |
| NetworkScripts.OnlyInstallIgnorable | script/net_setup.go:27-35 | in both sysctl scripts' firewall lists only installing ufw is ignorable |
| NetworkScripts.Gather | script/net.go:42-83 | the settings collected from a table of prompts, one answer each: a confirmed prompt adds its row |
| NetworkScripts.NetworkOptions | script/net.go:42-83 | the kernel settings the nine prompts choose |
| NetworkScripts.SysctlEffect | script/net_setup.go:39-111 | what the sysctl script does: sysctl.conf is read before the prompts; disabling IPv6 runs `ufw disable ipv6`, whose failure ends the script before the write; otherwise the patched file is written |
| NetworkScripts.PromptsChooseSettings | script/net.go:42-83 | a setting is chosen exactly when a confirmed prompt lists it, with that prompt's value; declined prompts add nothing |
| NetworkScripts.SettingsDisjoint | script/net.go:42-83 | the nine prompts set disjoint groups of kernel settings |
| NetworkScripts.GatherMeaning | script/net.go:42-83 | collecting from a table of prompts keeps what was there and adds exactly the confirmed rows |
| NetworkScripts.ChosenShift | script/net.go:42-83 | after one prompt, the later prompts choose what they chose before, one position on |
| NetworkScripts.GatherStep | script/net.go:42-83 | one prompt adds its row when confirmed and the rest continues from the next answer |
| NetworkScripts.AskSetting | script/net_setup.go:45-47 | one prompt adds its settings when confirmed and takes one answer |
| NetworkScripts.AskThree | script/net_setup.go:45-56 | three prompts in a row collect as the table says |
| NetworkScripts.AskEach | script/net_setup.go:45-83 | the nine prompts collect their table and take nine answers; the last says whether IPv6 is disabled |
| NetworkScripts.AskNetworkOptions | script/net_setup.go:45-83 | the nine prompts build the kernel settings |
| NetworkScripts.DisableIpv6Step | script/net_setup.go:81-88 | `ufw disable ipv6` runs only when IPv6 is disabled, and its failure is returned |
| NetworkScripts.ConfigureSysctl | script/net_setup.go:39-111 | sysctl.conf is read before the prompts; an IPv6 firewall failure returns before the write; otherwise the sysctl copy's patch is written |
| NetworkScripts.PatchSysctl | script/net_setup.go:45-111 | everything after the read: prompts, IPv6 step and patched write |
| NetworkScripts.NetworkRun | script/net_setup.go:26-119 | a fatal firewall step ends `Network.Run` before anything is read or asked; otherwise the settings are applied |
| NetworkScripts.NetworkSetupRun | script/net.go:31-95 | a fatal firewall step returns before options are collected; otherwise the settings are written with `WriteOptsToFile` and separator " = " |
| NetworkScripts.NetworkSetupRunWindows | script/net.go:97-111 | the Windows firewall is switched on, inbound connections are blocked only when asked, and a failure is wrapped |
| NetworkScripts.FirewallRun | script/network.go:27-35 | `Firewall.Run` runs its list through the logged runner |
| NetworkScripts.FirewallPastFailedSetup | script/network.go:28-34 | failing to install or enable ufw does not stop `Firewall.Run`: the three rules still run and it succeeds |
| ListeningApps.ParseListener | script/net_apps.go:35-48 | a line is parsed exactly when it has 7 or more fields and its 7th field holds one `/`; pid is before `/`, proc after it cut at the first space then colon; address is field 4 |
| ListeningApps.ParseBuilt | script/net_apps.go:36-48 | a line built from words with `pid/proc` as 7th word parses to that pid, proc and 4th word |
| ListeningApps.ShortLineIgnored | script/net_apps.go:37-39 | a line of fewer than 7 words is ignored |
| ListeningApps.ProgramField | script/net_apps.go:48 | the process name is the text after `/` up to the first space and then the first colon |
| ListeningApps.Traces | script/net_apps.go:92-99 | the trace lines are those that are neither empty nor start with `find:` |
| ListeningApps.TracesMeaning | script/net_apps.go:92-99 | a line is removed exactly when it is a non-empty line not starting with `find:` |
| ListeningApps.FirstFailing | script/net_apps.go:101-103 | the first removal that fails, or none |
| ListeningApps.UninstallSucceedsIff | script/net_apps.go:81-107 | uninstall succeeds exactly when `find` succeeds and no `rm` of a trace fails; then every trace has been removed |
| ListeningApps.Uninstall | script/net_apps.go:81-107 | the commands and result of `uninstall` are those of its specification |
| ListeningApps.UninstallSpec | script/net_apps.go:81-107 | what `uninstall` runs and returns: the purge, the `find`, whose failure is returned, then the removal of the traces it printed |
| ListeningApps.RemovalSpec | script/net_apps.go:92-104 | one `rm -rf` per trace line, in order, until the first failure, whose error is returned |
| ListeningApps.RemoveTraces | script/net_apps.go:92-104 | the removal loop runs `rm -rf` per trace in order and stops at the first failure |
| ListeningApps.RemovalStep | script/net_apps.go:92-104 | one removal iteration extends the trace list exactly for a kept line |
| ListeningApps.RemovalStops | script/net_apps.go:101-103 | a failing removal ends the loop with its error and no later removal |
| ListeningApps.HandleLine | script/net_apps.go:36-69 | one netstat line is handled as its specification says |
| ListeningApps.Step | script/net_apps.go:36-69 | one netstat line: an unparsed line does nothing, an accepted row does nothing, any other row is rejected |
| ListeningApps.Reject | script/net_apps.go:55-69 | a rejected listener is killed only if chosen and uninstalled only if chosen |
| ListeningApps.VisitLines | script/net_apps.go:35-70 | the loop over rows runs each row's commands in order and stops at an uninstall error |
| ListeningApps.Visit | script/net_apps.go:35-70 | the table's lines handled in order, up to the first uninstall error |
| ListeningApps.Run | script/net_apps.go:29-78 | `NetApps.Run` as a whole: netstat, the rows after the first two, reset and autoremove |
| ListeningApps.RunSpec | script/net_apps.go:29-78 | the whole script: netstat, whose failure is returned, then the table |
| ListeningApps.Table | script/net_apps.go:35-75 | output without a line break fails on `[2:]`; otherwise rows are visited and the script finishes |
| ListeningApps.TableSpec | script/net_apps.go:35-75 | output without a line break is the `[2:]` panic; otherwise the lines after the two headings are visited and the script finishes |
| ListeningApps.Finish | script/net_apps.go:72-75 | reset, then `apt autoremove`, whose failure is returned |
| ListeningApps.FinishSpec | script/net_apps.go:72-75 | clear the terminal, then `apt autoremove`, whose error is returned |
| ListeningApps.HeadingLinesSkipped | script/net_apps.go:35 | the two heading lines are never parsed |
| ListeningApps.AcceptedRowsUntouched | script/net_apps.go:50-52 | rows the operator accepts run nothing |
| ListeningApps.RowDecision | script/net_apps.go:50-57 | an accepted row does nothing and a rejected one goes on to the kill/uninstall prompts |
| ListeningApps.RejectedKeepsProgram | script/net_apps.go:59-65 | without uninstall a rejected row runs only the kill it was asked for |
| ListeningApps.RejectedUninstalls | script/net_apps.go:59-69 | with uninstall, a rejected row runs the optional kill and then the uninstall |
| ListeningApps.AutoremoveIff | script/net_apps.go:29-78 | `apt autoremove` runs exactly when netstat succeeds with a line break and no row's uninstall fails |
| ResolvConf.StripAnswers | script/dns.go:36-44 | the removal pass takes one answer per `nameserver` line of the file as read |
| ResolvConf.Strip | script/dns.go:36-48 | the removal pass over the lines as read: each `nameserver` line takes one answer, and a confirmed one has every copy of it with its line break deleted |
| ResolvConf.DuplicatesGo | script/dns.go:47 | removal deletes every copy: two copies of a confirmed line that each start a line both go, and the text around them is edited as on its own |
| ResolvConf.ConfirmedCopiesGo | script/dns.go:47 | in a file of whole lines where no other line ends with it, confirming a line deletes all its copies and keeps every other line in order |
| ResolvConf.StripNothing | script/dns.go:42-47 | declining every removal leaves the text unchanged |
| ResolvConf.FinalLineKept | script/dns.go:47 | a last nameserver line without `"\n"` is never removed |
| ResolvConf.CommentedCopyCut | script/dns.go:47 | removing `line + "\n"` also cuts it out of a `# line` comment |
| ResolvConf.AddedValid | script/dns.go:60-79 | the adding loop keeps the starting servers and adds only non-empty valid ones |
| ResolvConf.CollectedValid | script/network.go:87-105 | the collecting loop keeps the starting servers and adds only non-empty valid ones |
| ResolvConf.Added | script/dns.go:60-79 | the adding loop: after the first round it goes on only while "add another" is confirmed; an empty response ends it; an invalid one is passed over |
| ResolvConf.Collected | script/network.go:87-105 | the collecting loop: "add another" is asked only once a valid server is held |
| ResolvConf.ValidOnes | script/dns.go:72-78 | the valid responses, in order |
| ResolvConf.AddedAllValid | script/dns.go:60-79 | converse of `AddedValid`: an operator who types non-empty responses and confirms each "add another" gets exactly the valid ones, in entry order, and no answer is left over |
| ResolvConf.CollectedAllValid | script/network.go:87-105 | the same converse for the `network.go` loop |
| ResolvConf.LoopsAgreeOnValid | script/network.go:87-105 | when every response is valid the two loops read the answers alike |
| ResolvConf.LoopsDifferAfterInvalid | script/dns.go:60-79 | after an invalid first address the `dns.go` loop stops at the next answer, while the `network.go` loop takes it as an address |
| ResolvConf.DeclineAllKeepsFile | script/dns.go:51-58 | declining every removal and addition writes the file unchanged |
| ResolvConf.ServerLinesAppend | script/network.go:108-110 | the appended server lines are those of each server in entry order |
| ResolvConf.StripNameservers | script/dns.go:36-48 | the removal loop does what the removal pass says |
| ResolvConf.AddServers | script/dns.go:60-79 | the adding loop appends `nameserver <ip>` lines of the servers it accepts |
| ResolvConf.CollectServers | script/network.go:87-105 | the collecting loop gathers the servers of its specification |
| ResolvConf.AppendServers | script/network.go:108-110 | every collected server is appended as `nameserver <s>\n`, in order |
| ResolvConf.DnsRun | script/dns.go:26-86 | `UpdateDNS.Run` of dns.go as a whole: read error, removals, the declined-additions write, the additions and the final write |
| ResolvConf.DnsSpec | script/dns.go:26-86 | `UpdateDNS.Run` of dns.go: read error, removals, the declined-additions write, the additions and the final write |
| ResolvConf.NetworkDnsRun | script/network.go:51-117 | the older `UpdateDNS.Run`: open error, removals, declined additions return the write result directly, collected servers appended |
| ResolvConf.NetworkDnsSpec | script/network.go:51-117 | the older `UpdateDNS.Run`: open error, removals, a declined addition returns the write's own error, collected servers appended |
| Harden.HomeDirectory | main.go:56-72 | a home directory exists exactly for Windows, Linux and macOS; a non-empty `TEST_DIR` overrides it; any other OS is an error |
| Harden.Extension | main.go:136-141 | a name has an extension exactly when it holds a `.`, and the extension is the text after the last one |
| Harden.ExtensionOf | main.go:141 | the extension of `stem.ext` is `ext` |
| Harden.FileHits | main.go:142-149 | a file counts exactly when its extension is a media extension |
| Harden.Hits | main.go:142-149 | the inner loop's count: at most the number of media extensions, and positive exactly when the extension is one of them |
| Harden.CaseCounts | main.go:143 | extensions are compared case-sensitively: `.mp3` counts, `.MP3` does not |
| Harden.FindMediaFiles | main.go:127-158 | the loop and recursion compute the tree's media count |
| Harden.MatchExtension | main.go:142-149 | the inner loop adds one per matching media extension |
| Harden.TotalAppend | main.go:134-155 | a directory's count is the sum of its entries' counts |
| Harden.Total | main.go:134-155 | what the first n entries of a directory add: the sum of their counts |
| Harden.UnreadableSubtracts | main.go:128-132 | an unreadable subdirectory takes one from its parent's total |
| Harden.UnreadableOnly | main.go:128-154 | a directory whose entries are all unreadable subdirectories counts minus their number |
| Harden.ReadableNonNegative | main.go:127-158 | in a tree that can be read throughout the count is never negative |
| Harden.Classify | main.go:426-434 | an answer is accepted exactly when it is `y` or `yes` in any mix of case, and refused exactly when it is `n` or `no` in any mix of case; anything else is asked again |
| Harden.LowerSpelling | main.go:426 | lowering gives a lower-case word exactly when each letter of the answer is that letter in either case |
| Harden.ClassifyIgnoresCase | main.go:426 | the verdict does not depend on case |
| Harden.ClassifyExamples | main.go:426-434 | examples: `Y`, `yEs`, `YES`, `N` and `No` are understood; ` yes`, `yes ` and the empty answer are asked again, since nothing around the word is trimmed |
| Harden.Decide | main.go:423-435 | the re-prompting ends at the first answer that classifies, with its verdict, or never |
| Harden.MemberField | main.go:258-263 | the member field exists exactly for four or more colon fields, and is the fourth |
| Harden.Sudoers | main.go:253-270 | every sudoer is trimmed |
| Harden.SudoersOfGroupLine | main.go:258-268 | a group line whose member list holds trimmed names yields exactly those names |
| Harden.FieldOfGroupLine | main.go:258-263 | the fourth field of a `name:password:gid:list` line is the list |
| Harden.MembersOfList | main.go:263-266 | the comma-split, trimmed member list is the set of members |
| Harden.ParseSudoers | main.go:262-268 | the filled map has exactly the sudoers as keys, all true |
| Harden.AdminLines | main.go:311 | the output is split at the dashed rule, and a missing rule is the index panic |
| Harden.Administrators | main.go:303-323 | administrators exclude "Administrator" and blanks and are trimmed; a failed command gives none |
| Harden.AdminNamesSnoc | main.go:314-321 | each line adds its trimmed name unless it is "Administrator" or blank |
| Harden.Listed | main.go:316-318 | a trimmed line names an administrator when it is neither blank nor "Administrator" |
| Harden.AdminNames | main.go:314-321 | the trimmed lines that name administrators |
| Harden.AdministratorsOfListing | main.go:303-323 | round trip: a listing of a header, the rule, one trimmed name per line and the closing message gives back exactly the listed names |
| Harden.ParseAdministrators | main.go:309-322 | the filled map has exactly the administrators as keys, all true, or the panic |

## Left out

- Logging, sleeps and timers are left out: they do not change the machine's files, answers or commands.
- `CreateTempFileFrom` is left out: the model reads the same content from the original file. The write goes straight to the original path, so atomicity is not modelled.
- Errors of `io.ReadAll` after a successful open are not modelled.
- Running programs is an oracle fixed per host: which command lines fail, with which error text, and what each prints (nothing when no output is recorded).
  - Only the command line is recorded, not the split arguments handed to `exec.Command`.
  - `Tokenize` states that split separately.
- Prompts are an answer queue.
  - `prompts/defaults.go` and go-prompt's terminal handling are not part of this model.
  - In `main.go`, the re-prompting classifiers read from a sequence of inputs.
- Whether a text is an IP address (`net.ParseIP`) is the parameter `valid`.
- Go's map iteration order is left unfixed: every statement holds for every order of the leftover keys.
- Go runtime panics are modelled as error results with Go's panic text:
  - the `[2:]` slice of netstat output;
  - the `[1]` index of the admin list.
- The `ResetTerminal` of `script/net.go` is not part of this model. Its variant of the netapps script records no command for it (`byCommand` false).
- GoStrings.ToLower: lowers only ASCII capitals. Go's `strings.ToLower` also lowers non-ASCII letters, and this can only change which non-ASCII answers classify.
- Three yes/no classifiers appear in `main.go`; the model has one, since all three have the same body.
- The rest of `main.go` is left out: privilege checks, output switching, memory and GC settings, the user and program removal sequences that call the classifiers, and the media-file search's starting directory.
- Reading `TEST_DIR` from the environment is not modelled: it is the parameter `testDir`.
- OS-capability dispatch (`RunOnLinux`/`RunOnWindows` and the one-argument registration) is left out: no dispatcher appears in the code. Each variant is its own method.
- The registry stores an enumeration of the scripts, not Go interface values.
- `script/firewall.go`, `script/programs.go`, `script/antivirus.go` and `script/users.go` are left out: they are command lists and prompts only.
- `script/system.go` is left out: it only passes a fixed map to `WriteOptsToFile`.
- `script/hosts.go` is not part of this model: it relies on `utils.DelOptsFromFile`, whose source is not available.
- `script/net_ports.go` is left out: it is an empty stub.
- The nine network prompts are grouped in threes (`AskThree`, `AskEach`) only to keep the proof small. The answers are the same one by one.
