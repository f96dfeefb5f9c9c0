/** The two copies of the `UpdateDNS` script, which edit /etc/resolv.conf: `script/dns.go`
    and the older `script/network.go`. Both offer every `nameserver` line for removal,
    then add the servers the operator types; they differ in how the file is opened and in
    when the "add another" prompt is shown. Whether a text is an IP address is the
    parameter `valid`. */
module ResolvConf {
  import opened Base
  import opened GoStrings
  import opened Machine

  const Resolv := "/etc/resolv.conf"
  const Nameserver := "nameserver"

  /** The prefixes of the script's error messages. */
  const ReadFailed := "unable to read /etc/resolv.conf: "
  const WriteFailed := "unable to write /etc/resolv.conf: "
  const OpenFailed := "unable to open /etc/resolv.conf: "

  /** A line with its line break, as the removal deletes it. */
  function Terminated(line: string): string {
    line + "\n"
  }

  /** The line `fmt.Sprintf("nameserver %s\n", s)`. */
  function ServerLine(s: string): string {
    Nameserver + " " + s + "\n"
  }

  /** The lines for `servers`, in order. */
  function ServerLines(servers: seq<string>): string
    decreases |servers|
  {
    if servers == [] then ""
    else ServerLines(servers[..|servers| - 1]) + ServerLine(servers[|servers| - 1])
  }

  /** The text of the file and the answers still to come. */
  datatype Edit = Edit(data: string, answers: seq<Answer>)

  /** The removal pass. `lines` are the lines of the file as it was read, so a line the
      pass has already deleted is still offered; each `nameserver` line takes one answer,
      and a confirmed one has every copy of it, with its line break, deleted from `data`. */
  function Strip(data: string, lines: seq<string>, a: seq<Answer>): Edit
    decreases |lines|
  {
    if lines == [] then Edit(data, a)
    else if !HasPrefix(lines[0], Nameserver) then Strip(data, lines[1..], a)
    else
      Strip(if Confirmed(a) then Remove(data, Terminated(lines[0])) else data, lines[1..], Rest(a))
  }

  /** How many of `lines` are offered for removal. */
  function Offered(lines: seq<string>): (n: nat)
    ensures n <= |lines|
  {
    if lines == [] then 0
    else (if HasPrefix(lines[0], Nameserver) then 1 else 0) + Offered(lines[1..])
  }

  lemma SkipRest(a: seq<Answer>, n: nat)
    ensures Skip(Rest(a), n) == Skip(a, n + 1)
  {
  }

  /** The pass takes exactly one answer per `nameserver` line and none for other lines. */
  lemma {:induction false} StripAnswers(data: string, lines: seq<string>, a: seq<Answer>)
    ensures Strip(data, lines, a).answers == Skip(a, Offered(lines))
    decreases |lines|
  {
    if lines == [] {
      assert Skip(a, 0) == a;
    } else if !HasPrefix(lines[0], Nameserver) {
      StripAnswers(data, lines[1..], a);
    } else {
      var d := if Confirmed(a) then Remove(data, Terminated(lines[0])) else data;
      StripAnswers(d, lines[1..], Rest(a));
      SkipRest(a, Offered(lines[1..]));
    }
  }

  /** Declining every removal leaves the text as it was. */
  lemma {:induction false} StripNothing(data: string, lines: seq<string>, a: seq<Answer>)
    requires forall i :: 0 <= i < |a| ==> a[i] != Yes
    ensures Strip(data, lines, a).data == data
    decreases |lines|
  {
    if lines != [] {
      assert forall i :: 0 <= i < |Rest(a)| ==> Rest(a)[i] == a[i + 1];
      StripNothing(data, lines[1..], if HasPrefix(lines[0], Nameserver) then Rest(a) else a);
    }
  }

  /** A last line without a line break survives the pass: every deletion is of a text
      ending in a line break, so the pass works on what comes before it. In particular a
      final `nameserver` line is not removed even when the operator asks. */
  lemma {:induction false} FinalLineKept(data: string, last: string, lines: seq<string>,
                                         a: seq<Answer>)
    requires '\n' !in last
    ensures Strip(data + last, lines, a) == Edit(Strip(data, lines, a).data + last,
                                                 Strip(data, lines, a).answers)
    decreases |lines|
  {
    if lines != [] {
      if HasPrefix(lines[0], Nameserver) {
        var pat := Terminated(lines[0]);
        RemoveTail(data, last, pat, '\n');
        var d := if Confirmed(a) then Remove(data, pat) else data;
        assert (if Confirmed(a) then Remove(data + last, pat) else data + last) == d + last;
        FinalLineKept(d, last, lines[1..], Rest(a));
      } else {
        FinalLineKept(data, last, lines[1..], a);
      }
    }
  }

  /** The deletion works on substrings, not on whole lines: removing a server also cuts
      the tail off a commented copy of it. */
  lemma CommentedCopyCut(line: string)
    requires HasPrefix(line, Nameserver)
    ensures Remove("# " + Terminated(line), Terminated(line)) == "# "
  {
    var pat := Terminated(line);
    assert pat[0] == 'n';
    RemoveKeeps("# ", pat, pat);
    RemoveLeading(pat, "");
    assert pat + "" == pat;
  }

  /** Removal deletes every copy: when the operator confirms a `nameserver` line whose
      two copies both start a line, both go, and the rest of the text is edited as on
      its own. */
  lemma DuplicatesGo(x: string, y: string, z: string, line: string, rest: seq<string>,
                     a: seq<Answer>)
    requires HasPrefix(line, Nameserver) && '\n' !in line && Confirmed(a)
    requires EndsAt(x, '\n') && EndsAt(y, '\n')
    ensures var p := Terminated(line);
            Strip(x + p + y + p + z, [line] + rest, a)
            == Strip(Remove(x, p) + Remove(y, p) + Remove(z, p), rest, Rest(a))
  {
    var p := Terminated(line);
    assert p[..|p| - 1] == line;
    RemoveCopies(x, y, z, p, '\n');
    assert ([line] + rest)[0] == line && ([line] + rest)[1..] == rest;
  }

  /** A file of whole lines in which no other line ends with the confirmed `nameserver`
      line loses exactly the copies of that line, however many there are, and keeps
      every other line in order. */
  lemma ConfirmedCopiesGo(ls: seq<string>, line: string, rest: seq<string>, a: seq<Answer>)
    requires HasPrefix(line, Nameserver) && '\n' !in line && Confirmed(a)
    requires forall k :: 0 <= k < |ls| ==> '\n' !in ls[k]
    requires forall k :: 0 <= k < |ls| ==> ls[k] != line ==> !HasSuffix(ls[k], line)
    ensures Strip(Terminate(ls, '\n'), [line] + rest, a)
            == Strip(Terminate(Without(ls, line), '\n'), rest, Rest(a))
  {
    RemoveWholeLines(ls, line, '\n');
    assert ([line] + rest)[0] == line && ([line] + rest)[1..] == rest;
  }

  /** The servers gathered and the answers still to come. */
  datatype Gathered = Gathered(servers: seq<string>, answers: seq<Answer>)

  /** The adding loop of `script/dns.go`: after the first round it goes on only while
      "add another" is confirmed; an empty response ends it and an invalid one is passed
      over. */
  function Added(acc: seq<string>, a: seq<Answer>, first: bool, valid: string -> bool): Gathered
    decreases |a|
  {
    if !first && !Confirmed(a) then Gathered(acc, Rest(a))
    else
      var b := if first then a else Rest(a);
      var s := Response(b);
      if s == "" then Gathered(acc, Rest(b))
      else Added(if valid(s) then acc + [s] else acc, Rest(b), false, valid)
  }

  /** The collecting loop of `script/network.go`: "add another" is asked only once a valid
      server has been collected. */
  function Collected(acc: seq<string>, a: seq<Answer>, valid: string -> bool): Gathered
    decreases |a|
  {
    if acc != [] && !Confirmed(a) then Gathered(acc, Rest(a))
    else
      var b := if acc != [] then Rest(a) else a;
      var s := Response(b);
      if s == "" then Gathered(acc, Rest(b))
      else Collected(if valid(s) then acc + [s] else acc, Rest(b), valid)
  }

  /** `g` starts with the servers `acc` and adds only valid, non-empty ones. */
  ghost predicate ExtendsValid(acc: seq<string>, g: seq<string>, valid: string -> bool) {
    |acc| <= |g| && g[..|acc|] == acc && forall k :: |acc| <= k < |g| ==> g[k] != "" && valid(g[k])
  }

  /** Extending the servers by one non-empty response, kept only when valid. */
  lemma GrowValid(acc: seq<string>, s: string, g: seq<string>, valid: string -> bool)
    requires s != ""
    requires ExtendsValid(if valid(s) then acc + [s] else acc, g, valid)
    ensures ExtendsValid(acc, g, valid)
  {
    if valid(s) {
      var acc' := acc + [s];
      assert g[..|acc'|][..|acc|] == g[..|acc|];
      assert g[|acc|] == acc'[|acc|] == s;
    }
  }

  /** The adding loop keeps the servers it started with and adds only valid, non-empty
      ones. */
  lemma {:induction false} AddedValid(acc: seq<string>, a: seq<Answer>, first: bool,
                                      valid: string -> bool)
    ensures ExtendsValid(acc, Added(acc, a, first, valid).servers, valid)
    decreases |a|
  {
    if first || Confirmed(a) {
      var b := if first then a else Rest(a);
      var s := Response(b);
      if s != "" {
        var acc' := if valid(s) then acc + [s] else acc;
        assert Added(acc, a, first, valid) == Added(acc', Rest(b), false, valid);
        AddedValid(acc', Rest(b), false, valid);
        GrowValid(acc, s, Added(acc', Rest(b), false, valid).servers, valid);
      }
    }
  }

  /** The same holds of the collecting loop. */
  lemma {:induction false} CollectedValid(acc: seq<string>, a: seq<Answer>, valid: string -> bool)
    ensures ExtendsValid(acc, Collected(acc, a, valid).servers, valid)
    decreases |a|
  {
    if acc == [] || Confirmed(a) {
      var b := if acc != [] then Rest(a) else a;
      var s := Response(b);
      if s != "" {
        var acc' := if valid(s) then acc + [s] else acc;
        assert Collected(acc, a, valid) == Collected(acc', Rest(b), valid);
        CollectedValid(acc', Rest(b), valid);
        GrowValid(acc, s, Collected(acc', Rest(b), valid).servers, valid);
      }
    }
  }

  /** The responses among `rs` that are valid addresses, in order. */
  function ValidOnes(rs: seq<string>, valid: string -> bool): (r: seq<string>)
    ensures forall k :: 0 <= k < |r| ==> valid(r[k]) && r[k] in rs
    decreases |rs|
  {
    if rs == [] then []
    else (if valid(rs[0]) then [rs[0]] else []) + ValidOnes(rs[1..], valid)
  }

  /** The answers of an operator who types the responses `rs` into the `script/dns.go`
      loop, confirming "add another" each time it is asked, and then gives no answer. */
  function AddedTyped(rs: seq<string>, first: bool): seq<Answer>
    decreases |rs|
  {
    if rs == [] then []
    else (if first then [] else [Yes]) + [Text(rs[0])] + AddedTyped(rs[1..], false)
  }

  /** The same for the `script/network.go` loop, which asks "add another" only once it
      holds a server. */
  function CollectedTyped(rs: seq<string>, holding: bool, valid: string -> bool): seq<Answer>
    decreases |rs|
  {
    if rs == [] then []
    else (if holding then [Yes] else []) + [Text(rs[0])] +
         CollectedTyped(rs[1..], holding || valid(rs[0]), valid)
  }

  /** Every valid response typed is added, in entry order, and nothing else is: the
      converse of `AddedValid`. */
  lemma {:induction false} AddedAllValid(acc: seq<string>, rs: seq<string>, first: bool,
                                         valid: string -> bool)
    requires forall k :: 0 <= k < |rs| ==> rs[k] != ""
    ensures Added(acc, AddedTyped(rs, first), first, valid) == Gathered(acc + ValidOnes(rs, valid), [])
    decreases |rs|
  {
    if rs == [] {
      assert acc + [] == acc;
    } else {
      var acc' := if valid(rs[0]) then acc + [rs[0]] else acc;
      var t := AddedTyped(rs[1..], false);
      assert AddedTyped(rs, first) == (if first then [] else [Yes]) + [Text(rs[0])] + t;
      AddedRound(acc, rs[0], t, first, valid);
      assert Added(acc, AddedTyped(rs, first), first, valid) == Added(acc', t, false, valid);
      AddedAllValid(acc', rs[1..], false, valid);
      assert ValidOnes(rs, valid) == (if valid(rs[0]) then [rs[0]] else []) + ValidOnes(rs[1..], valid);
      AppendAssoc(acc, if valid(rs[0]) then [rs[0]] else [], ValidOnes(rs[1..], valid));
    }
  }

  /** One round of the `script/dns.go` loop with a non-empty response `s`. */
  lemma AddedRound(acc: seq<string>, s: string, t: seq<Answer>, first: bool, valid: string -> bool)
    requires s != ""
    ensures Added(acc, (if first then [] else [Yes]) + [Text(s)] + t, first, valid)
            == Added(if valid(s) then acc + [s] else acc, t, false, valid)
  {
    var b := [Text(s)] + t;
    var a := (if first then [] else [Yes]) + [Text(s)] + t;
    assert a == (if first then b else [Yes] + b);
    assert (if first then a else Rest(a)) == b;
    assert Response(b) == s && Rest(b) == t;
  }

  /** The same converse for the collecting loop of `script/network.go`. */
  lemma {:induction false} CollectedAllValid(acc: seq<string>, rs: seq<string>,
                                             valid: string -> bool)
    requires forall k :: 0 <= k < |rs| ==> rs[k] != ""
    ensures Collected(acc, CollectedTyped(rs, acc != [], valid), valid)
            == Gathered(acc + ValidOnes(rs, valid), [])
    decreases |rs|
  {
    if rs == [] {
      assert acc + [] == acc;
    } else {
      var acc' := if valid(rs[0]) then acc + [rs[0]] else acc;
      assert (acc != [] || valid(rs[0])) == (acc' != []);
      var t := CollectedTyped(rs[1..], acc' != [], valid);
      assert CollectedTyped(rs, acc != [], valid) == (if acc != [] then [Yes] else []) + [Text(rs[0])] + t;
      CollectedRound(acc, rs[0], t, valid);
      assert Collected(acc, CollectedTyped(rs, acc != [], valid), valid) == Collected(acc', t, valid);
      CollectedAllValid(acc', rs[1..], valid);
      var more := ValidOnes(rs[1..], valid);
      if valid(rs[0]) {
        assert ValidOnes(rs, valid) == [rs[0]] + more;
        AppendAssoc(acc, [rs[0]], more);
      } else {
        assert ValidOnes(rs, valid) == [] + more == more;
      }
      assert acc' + more == acc + ValidOnes(rs, valid);
    }
  }

  /** One round of the `script/network.go` loop with a non-empty response `s`. */
  lemma CollectedRound(acc: seq<string>, s: string, t: seq<Answer>, valid: string -> bool)
    requires s != ""
    ensures Collected(acc, (if acc != [] then [Yes] else []) + [Text(s)] + t, valid)
            == Collected(if valid(s) then acc + [s] else acc, t, valid)
  {
    var b := [Text(s)] + t;
    var a := (if acc != [] then [Yes] else []) + [Text(s)] + t;
    assert a == (if acc != [] then [Yes] + b else b);
    assert (if acc != [] then Rest(a) else a) == b;
    assert Response(b) == s && Rest(b) == t;
  }

  /** When every response is a valid address the two loops agree: each round takes a
      server, so "add another" comes at the same points. */
  lemma {:induction false} LoopsAgreeOnValid(acc: seq<string>, a: seq<Answer>, first: bool,
                                             valid: string -> bool)
    requires forall s :: valid(s)
    requires first <==> acc == []
    ensures Added(acc, a, first, valid) == Collected(acc, a, valid)
    decreases |a|
  {
    if first || Confirmed(a) {
      var b := if first then a else Rest(a);
      var s := Response(b);
      if s != "" {
        assert valid(s);
        LoopsAgreeOnValid(acc + [s], Rest(b), false, valid);
      }
    }
  }

  /** An invalid first entry tells the loops apart: `script/dns.go` reads the next
      answer as the "add another" prompt and stops, while `script/network.go` reads it as
      the next address. */
  lemma LoopsDifferAfterInvalid(bad: string, good: string, valid: string -> bool)
    requires bad != "" && good != "" && !valid(bad) && valid(good)
    ensures Added([], [Text(bad), Text(good)], true, valid) == Gathered([], [])
    ensures Collected([], [Text(bad), Text(good)], valid) == Gathered([good], [])
  {
    var a := [Text(bad), Text(good)];
    assert Rest(a) == [Text(good)];
    assert Rest(Rest(a)) == [];
    assert Collected([], a, valid) == Collected([], [Text(good)], valid);
    assert Collected([], [Text(good)], valid) == Collected([good], [], valid);
  }

  /** What running a script does to the machine. */
  datatype Effect = Effect(files: map<string, string>, answers: seq<Answer>, err: Outcome)

  /** `os.WriteFile` of `data` to /etc/resolv.conf, its error wrapped with `prefix`. */
  function Written(files: map<string, string>, readOnly: set<string>, data: string,
                   a: seq<Answer>, prefix: string): Effect
  {
    if Resolv in readOnly then Effect(files, a, Failure(prefix + OpenError(Resolv, Denied)))
    else Effect(files[Resolv := data], a, Success)
  }

  /** `UpdateDNS.Run` of `script/dns.go`. */
  function DnsSpec(files: map<string, string>, readOnly: set<string>, a: seq<Answer>,
                   valid: string -> bool): Effect
  {
    if Resolv !in files then Effect(files, a, Failure(ReadFailed + OpenError(Resolv, NotFound)))
    else
      var data := files[Resolv];
      var st := Strip(data, Split(data, "\n"), a);
      if !Confirmed(st.answers) then Written(files, readOnly, st.data, Rest(st.answers), WriteFailed)
      else
        var g := Added([], Rest(st.answers), true, valid);
        Written(files, readOnly, st.data + ServerLines(g.servers), g.answers, WriteFailed)
  }

  /** `UpdateDNS.Run` of `script/network.go`. The file is opened for reading and writing
      first; declining to add servers returns the write's own error. */
  function NetworkDnsSpec(files: map<string, string>, readOnly: set<string>, a: seq<Answer>,
                          valid: string -> bool): Effect
  {
    if Resolv !in files then Effect(files, a, Failure(OpenFailed + OpenError(Resolv, NotFound)))
    else if Resolv in readOnly then Effect(files, a, Failure(OpenFailed + OpenError(Resolv, Denied)))
    else
      var data := files[Resolv];
      var st := Strip(data, Split(data, "\n"), a);
      if !Confirmed(st.answers) then Written(files, readOnly, st.data, Rest(st.answers), "")
      else
        var g := Collected([], Rest(st.answers), valid);
        Written(files, readOnly, st.data + ServerLines(g.servers), g.answers, WriteFailed)
  }

  /** Declining both the removals and the additions rewrites the file unchanged. */
  lemma DeclineAllKeepsFile(files: map<string, string>, readOnly: set<string>, a: seq<Answer>,
                            valid: string -> bool)
    requires Resolv in files && Resolv !in readOnly
    requires forall i :: 0 <= i < |a| ==> a[i] != Yes
    ensures DnsSpec(files, readOnly, a, valid).files == files
    ensures NetworkDnsSpec(files, readOnly, a, valid).files == files
  {
    var data := files[Resolv];
    StripNothing(data, Split(data, "\n"), a);
    StripAnswers(data, Split(data, "\n"), a);
    var st := Strip(data, Split(data, "\n"), a);
    assert !Confirmed(st.answers);
  }

  /** Servers the operator adds land at the end of the file, after the edited text, one
      `nameserver` line each in the order they were typed. */
  lemma {:induction false} ServerLinesAppend(servers: seq<string>, more: seq<string>)
    ensures ServerLines(servers + more) == ServerLines(servers) + ServerLines(more)
    decreases |more|
  {
    if more == [] {
      assert servers + more == servers;
    } else {
      var init, last := more[..|more| - 1], more[|more| - 1];
      calc {
        ServerLines(servers + more);
        { assert servers + more == (servers + init) + [last];
          ServerLinesSnoc(servers + init, last); }
        ServerLines(servers + init) + ServerLine(last);
        { ServerLinesAppend(servers, init); }
        ServerLines(servers) + ServerLines(init) + ServerLine(last);
        ServerLines(servers) + (ServerLines(init) + ServerLine(last));
        { assert more == init + [last];
          ServerLinesSnoc(init, last); }
        ServerLines(servers) + ServerLines(more);
      }
    }
  }

  lemma ServerLinesSnoc(servers: seq<string>, s: string)
    ensures ServerLines(servers + [s]) == ServerLines(servers) + ServerLine(s)
  {
    assert (servers + [s])[..|servers + [s]| - 1] == servers;
  }

  /** The removal pass of both copies. */
  method StripNameservers(h: Host, data: string) returns (d: string)
    modifies h`answers
    ensures Edit(d, h.answers) == Strip(data, Split(data, "\n"), old(h.answers))
  {
    var lines := Split(data, "\n");
    d := data;
    var i := 0;
    while i < |lines|
      invariant 0 <= i <= |lines|
      invariant Strip(data, lines, old(h.answers)) == Strip(d, lines[i..], h.answers)
    {
      var line := lines[i];
      assert lines[i..][0] == line && lines[i..][1..] == lines[i + 1..];
      if HasPrefix(line, Nameserver) {
        var remove := h.Confirm();
        if remove {
          d := Remove(d, line + "\n");
        }
      }
      i := i + 1;
    }
  }

  /** The adding loop of `script/dns.go`. */
  method AddServers(h: Host, data: string, valid: string -> bool) returns (d: string)
    modifies h`answers
    ensures var g := Added([], old(h.answers), true, valid);
            d == data + ServerLines(g.servers) && h.answers == g.answers
  {
    var first := true;
    d := data;
    ghost var acc: seq<string> := [];
    while true
      invariant d == data + ServerLines(acc)
      invariant Added([], old(h.answers), true, valid) == Added(acc, h.answers, first, valid)
      decreases |h.answers|
    {
      if !first {
        var more := h.Confirm();
        if !more {
          break;
        }
      }
      first := false;
      var s := h.RawResponse();
      if s == "" {
        break;
      }
      if !valid(s) {
        continue;
      }
      ServerLinesSnoc(acc, s);
      AppendAssoc(data, ServerLines(acc), ServerLine(s));
      d := d + ServerLine(s);
      acc := acc + [s];
    }
  }

  /** The collecting loop of `script/network.go`. */
  method CollectServers(h: Host, valid: string -> bool) returns (servers: seq<string>)
    modifies h`answers
    ensures Gathered(servers, h.answers) == Collected([], old(h.answers), valid)
  {
    servers := [];
    while true
      invariant Collected([], old(h.answers), valid) == Collected(servers, h.answers, valid)
      decreases |h.answers|
    {
      if |servers| != 0 {
        var more := h.Confirm();
        if !more {
          break;
        }
      }
      var s := h.RawResponse();
      if s == "" {
        break;
      }
      if !valid(s) {
        continue;
      }
      servers := servers + [s];
    }
  }

  /** The loop of `script/network.go` appending the collected servers. */
  method AppendServers(data: string, servers: seq<string>) returns (d: string)
    ensures d == data + ServerLines(servers)
  {
    d := data;
    for i := 0 to |servers|
      invariant d == data + ServerLines(servers[..i])
    {
      assert servers[..i + 1][..i] == servers[..i];
      d := d + ServerLine(servers[i]);
    }
    assert servers[..|servers|] == servers;
  }

  /** `UpdateDNS.Run` of `script/dns.go`. */
  method DnsRun(h: Host, valid: string -> bool) returns (err: Outcome)
    modifies h`files, h`answers
    ensures var e := DnsSpec(old(h.files), h.readOnly, old(h.answers), valid);
            h.files == e.files && h.answers == e.answers && err == e.err
  {
    var r := h.ReadFile(Resolv);
    if r.Err? {
      return Failure(ReadFailed + r.message);
    }
    var data := StripNameservers(h, r.value);
    var add := h.Confirm();
    if !add {
      var o := h.WriteFile(Resolv, data);
      if o.Failure? {
        return Failure(WriteFailed + o.message);
      }
      return Success;
    }
    data := AddServers(h, data, valid);
    var o := h.WriteFile(Resolv, data);
    if o.Failure? {
      return Failure(WriteFailed + o.message);
    }
    err := Success;
  }

  /** `UpdateDNS.Run` of `script/network.go`. */
  method NetworkDnsRun(h: Host, valid: string -> bool) returns (err: Outcome)
    modifies h`files, h`answers
    ensures var e := NetworkDnsSpec(old(h.files), h.readOnly, old(h.answers), valid);
            h.files == e.files && h.answers == e.answers && err == e.err
  {
    var r := h.OpenReadWrite(Resolv);
    if r.Err? {
      return Failure(OpenFailed + r.message);
    }
    var data := StripNameservers(h, r.value);
    var add := h.Confirm();
    if !add {
      err := h.WriteFile(Resolv, data);
      return;
    }
    var servers := CollectServers(h, valid);
    data := AppendServers(data, servers);
    // The file was opened for writing, so this write is not refused.
    err := h.WriteFile(Resolv, data);
  }
}
