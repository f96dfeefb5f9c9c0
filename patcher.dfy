/** The six copies of the configuration-directive patcher. Each splits a file's text on
    "\n", rewrites the first line whose key is a desired key (dropping that key from the
    desired map), appends a line for every key left, and joins the lines with "\n" again.
    The copies differ only in how a line's key is found and how a matched line is
    rewritten; `Dialect` names the copy, and `RuleOf` hands its line treatment to the loop
    of module `Directives`. */
module Patcher {
  import opened Base
  import opened GoStrings
  import opened Directives

  /** Which copy of the patcher. */
  datatype Dialect =
    | Generic(sep: string)  // utils.WriteOptsToFile(opts, sep, file)
    | LoginDefs             // /etc/login.defs in script/password_setup.go
    | PwQuality             // /etc/security/pwquality.conf in script/password_setup.go
    | Vsftpd                // /etc/vsftpd.conf in script/services.go
    | Sshd                  // /etc/ssh/sshd_config in script/services.go
    | Sysctl                // /etc/sysctl.conf in script/net_setup.go

  /** The copies that delete every '#' from a working copy of the line and split that. */
  predicate StripsComments(d: Dialect) {
    d.Generic? || d.LoginDefs? || d.PwQuality?
  }

  /** What a '#'-stripping copy splits the working copy on. */
  function SplitSep(d: Dialect): string
    requires StripsComments(d)
  {
    match d
    case Generic(sep) => sep
    case LoginDefs => " "
    case PwQuality => "="
  }

  /** What goes between key and value, in a rewritten line and in an appended one. */
  function Joiner(d: Dialect): string {
    match d
    case Generic(sep) => sep
    case LoginDefs => " "
    case PwQuality => " = "
    case Vsftpd => "="
    case Sshd => " "
    case Sysctl => " = "
  }

  /** Whether a copy inspects `line` at all. */
  predicate Candidate(d: Dialect, line: string) {
    match d
    case Vsftpd => line != ""
    case Sshd => line != "" && |Split(line, " ")| >= 2
    case Sysctl => !HasPrefix(line, "#")
    case _ => line != "" && |Split(Remove(line, "#"), SplitSep(d))| >= 2
  }

  /** The text a copy keeps before the joiner when it rewrites `line`. */
  function Head(d: Dialect, line: string): string {
    match d
    case Vsftpd => Remove(Split(line, "=")[0], "#")
    case Sshd => Remove(Split(line, " ")[0], "#")
    case Sysctl => Split(Remove(line, " "), "=")[0]
    case _ =>
      var parts := Split(Remove(line, "#"), SplitSep(d));
      if parts == [] then "" else parts[0]
  }

  /** The key a copy looks up for `line`, or `None` when it skips the line. */
  function LineKey(d: Dialect, line: string): Option<string> {
    if !Candidate(d, line) then None
    else if d.Generic? || d.PwQuality? then Some(TrimSpace(Head(d, line)))
    else Some(Head(d, line))
  }

  /** The line that replaces a matched `line` when its key is desired with `value`. */
  function RewriteLine(d: Dialect, line: string, value: string): string {
    Head(d, line) + Joiner(d) + value
  }

  /** The line appended for a desired key found on no line. */
  function Entry(d: Dialect, key: string, value: string): string {
    key + Joiner(d) + value
  }

  /** A copy's treatment of single lines, as the shared loop takes it. */
  function RuleOf(d: Dialect): LineRule {
    LineRule(line => LineKey(d, line), (line, value) => RewriteLine(d, line, value),
             (key, value) => Entry(d, key, value))
  }

  /** The body every copy shares: the rewrite loop over the lines of `content`, then the
      append loop over the keys still desired, then the join. `leftover` is what the
      caller's map holds afterwards: the loop deletes each key it uses. */
  method ApplyDirectives(d: Dialect, content: string, opts: map<string, string>)
    returns (result: string, leftover: map<string, string>)
    ensures leftover == Pass(RuleOf(d), Split(content, "\n"), opts).rest
    ensures exists order :: IsOrdering(order, leftover.Keys) && result == Output(RuleOf(d), content, opts, order)
  {
    var lines := Split(content, "\n");
    var rewritten;
    rewritten, leftover := RewriteLines(d, lines, opts);
    var out := AppendLeftovers(d, rewritten, leftover);
    result := Join(out, "\n");
    ghost var order :| IsOrdering(order, leftover.Keys) && out == rewritten + Entries(RuleOf(d), order, leftover);
    assert result == Output(RuleOf(d), content, opts, order);
  }

  /** The rewrite loop: each line in turn, rewritten when its key is still desired, the key
      then deleted from the desired map. */
  method RewriteLines(d: Dialect, lines: seq<string>, opts: map<string, string>)
    returns (out: seq<string>, remaining: map<string, string>)
    ensures Pass(RuleOf(d), lines, opts) == PassResult(out, remaining)
  {
    out := lines;
    remaining := opts;
    var i := 0;
    while i < |lines|
      invariant 0 <= i <= |lines| && |out| == |lines|
      invariant forall j :: i <= j < |lines| ==> out[j] == lines[j]
      invariant Pass(RuleOf(d), lines[..i], opts) == PassResult(out[..i], remaining)
    {
      ghost var before, rest := out, remaining;
      var line;
      line, remaining := RewriteOne(d, lines[i], remaining);
      out := out[i := line];
      PassSnoc(RuleOf(d), lines, i, opts, before, out, rest, remaining);
      i := i + 1;
    }
    assert lines[..i] == lines && out[..i] == out;
  }

  /** One iteration of the rewrite loop: a line whose key is still desired is rewritten
      with that key's value, and the key is deleted; any other line is left as it is. */
  method RewriteOne(d: Dialect, line: string, remaining: map<string, string>)
    returns (line': string, remaining': map<string, string>)
    ensures Step(RuleOf(d), line, remaining) == (line', remaining')
  {
    line', remaining' := line, remaining;
    match LineKey(d, line) {
      case Some(k) =>
        if k in remaining {
          line' := RewriteLine(d, line, remaining[k]);
          remaining' := remaining - {k};
        }
      case None =>
    }
  }

  /** The append loop: one entry per key of `rest`, in whatever order the map is visited. */
  method AppendLeftovers(d: Dialect, lines: seq<string>, rest: map<string, string>)
    returns (out: seq<string>)
    ensures exists order :: IsOrdering(order, rest.Keys) && out == lines + Entries(RuleOf(d), order, rest)
  {
    out := lines;
    ghost var order: seq<string> := [];
    var pending := rest.Keys;
    while pending != {}
      invariant pending <= rest.Keys
      invariant forall i, j :: 0 <= i < j < |order| ==> order[i] != order[j]
      invariant forall k :: k in order <==> k in rest.Keys - pending
      invariant out == lines + Entries(RuleOf(d), order, rest)
      decreases |pending|
    {
      var k :| k in pending;
      assert k !in order;
      EntriesSnoc(RuleOf(d), order, k, rest);
      out := out + [Entry(d, k, rest[k])];
      order := order + [k];
      pending := pending - {k};
    }
    assert IsOrdering(order, rest.Keys);
  }

  // ---------------------------------------------------------------------------------
  // Which keys and values each copy handles faithfully.

  /** The generic copy needs a separator that is not empty, holds no '#' (which it deletes
      before splitting) and no newline. */
  predicate DialectOk(d: Dialect) {
    d.Generic? ==> d.sep != [] && '#' !in d.sep && '\n' !in d.sep
  }

  /** A key the copy finds again in the line it appends for it. */
  predicate KeyOk(d: Dialect, k: string) {
    && '\n' !in k
    && match d
       case Generic(sep) => '#' !in k && Trimmed(k) && Index(k + sep, sep) == |k|
       case LoginDefs => '#' !in k && ' ' !in k
       case PwQuality => '#' !in k && '=' !in k && Trimmed(k)
       case Vsftpd => '#' !in k && '=' !in k
       case Sshd => '#' !in k && ' ' !in k
       case Sysctl => ' ' !in k && '=' !in k && (k == [] || k[0] != '#')
  }

  /** No desired key or value holds a newline. */
  predicate NoNewlines(opts: map<string, string>) {
    forall k :: k in opts ==> '\n' !in k && '\n' !in opts[k]
  }

  /** Desired options whose every key the copy finds again where it put it. */
  predicate WellFormed(d: Dialect, opts: map<string, string>) {
    DialectOk(d) && NoNewlines(opts) && forall k :: k in opts ==> KeyOk(d, k)
  }

  // ---------------------------------------------------------------------------------
  // Single lines.

  /** The head a copy keeps holds no character the line lacks. */
  lemma HeadFree(d: Dialect, line: string, c: char)
    requires DialectOk(d) && c !in line
    ensures c !in Head(d, line)
  {
    match d {
      case Vsftpd =>
        SplitHeadFree(line, "=", c);
        RemoveChar(Split(line, "=")[0], '#');
      case Sshd =>
        SplitHeadFree(line, " ", c);
        RemoveChar(Split(line, " ")[0], '#');
      case Sysctl =>
        RemoveChar(line, ' ');
        SplitHeadFree(Remove(line, " "), "=", c);
      case _ =>
        RemoveChar(line, '#');
        SplitHeadFree(Remove(line, "#"), SplitSep(d), c);
    }
  }

  /** A rewritten line holds a newline only if the line or the value held one. */
  lemma RewriteFree(d: Dialect, line: string, value: string)
    requires DialectOk(d) && '\n' !in line && '\n' !in value
    ensures '\n' !in RewriteLine(d, line, value)
  {
    HeadFree(d, line, '\n');
  }

  /** The head of a line of a '#'-stripping copy, and where its separator starts. */
  lemma StripHead(d: Dialect, line: string)
    requires StripsComments(d) && DialectOk(d) && Candidate(d, line)
    ensures '#' !in Head(d, line)
    ensures Index(Remove(line, "#"), SplitSep(d)) == |Head(d, line)|
    ensures Remove(line, "#")[..|Head(d, line)| + |SplitSep(d)|] == Head(d, line) + SplitSep(d)
  {
    var w, sep := Remove(line, "#"), SplitSep(d);
    var h := Head(d, line);
    assert h == Split(w, sep)[0] && |Split(w, sep)| >= 2;
    SplitHeadPrefix(w, sep);
    RemoveChar(line, '#');
    SplitHeadFree(w, sep, '#');
  }

  /** The generic and login.defs copies read `h + sep + v` back with head `h`, when `h`
      holds no '#' and the first separator follows it. */
  lemma SameJoinerLine(d: Dialect, h: string, value: string)
    requires (d.Generic? || d.LoginDefs?) && DialectOk(d) && '#' !in h
    requires Index(h + SplitSep(d), SplitSep(d)) == |h|
    ensures Candidate(d, h + Joiner(d) + value) && Head(d, h + Joiner(d) + value) == h
  {
    var sep := SplitSep(d);
    assert Joiner(d) == sep && sep != [];
    var l := h + sep + value;
    assert '#' !in h + sep;
    RemoveAfterFree(h + sep, value, '#');
    SplitAfterHead(h, sep, Remove(value, "#"));
    assert |l| >= |sep| > 0;
  }

  /** A text whose first separator follows `h` splits into `h` first and more after. */
  lemma SplitAfterHead(h: string, sep: string, rest: string)
    requires sep != [] && Index(h + sep, sep) == |h|
    ensures |Split(h + sep + rest, sep)| >= 2 && Split(h + sep + rest, sep)[0] == h
  {
    var w := h + sep + rest;
    assert (h + sep)[..|h| + |sep|] == w[..|h| + |sep|];
    IndexAgrees(h + sep, w, sep);
    SplitHead(w, sep);
    assert w[..|h|] == h;
  }

  /** Rewriting a line of the generic or login.defs copy keeps its key and gives a line the
      copy rewrites to itself. */
  lemma SameJoinerRewrite(d: Dialect, line: string, value: string)
    requires (d.Generic? || d.LoginDefs?) && DialectOk(d) && Candidate(d, line)
    ensures Candidate(d, RewriteLine(d, line, value))
    ensures Head(d, RewriteLine(d, line, value)) == Head(d, line)
    ensures LineKey(d, RewriteLine(d, line, value)) == LineKey(d, line)
    ensures RewriteLine(d, RewriteLine(d, line, value), value) == RewriteLine(d, line, value)
  {
    var h, sep := Head(d, line), SplitSep(d);
    StripHead(d, line);
    var w := Remove(line, "#");
    assert (h + sep)[..|h| + |sep|] == w[..|h| + |sep|];
    IndexAgrees(w, h + sep, sep);
    SameJoinerLine(d, h, value);
  }

  /** The pwquality copy reads `h = v` back with head `h ` (the space before '=' kept)
      and key `TrimSpace(h)`, when `h` holds neither '#' nor '='. */
  lemma PwQualityLine(h: string, value: string)
    requires '#' !in h && '=' !in h
    ensures Candidate(PwQuality, h + " = " + value)
    ensures Head(PwQuality, h + " = " + value) == h + " "
    ensures LineKey(PwQuality, h + " = " + value) == Some(TrimSpace(h))
  {
    var l := h + " = " + value;
    var v2 := Remove(value, "#");
    assert Remove(l, "#") == (h + " ") + ['='] + (" " + v2) by {
      assert '#' !in h + " = ";
      RemoveAfterFree(h + " = ", value, '#');
      assert h + " = " + v2 == (h + " ") + ['='] + (" " + v2);
    }
    SplitAtChar(h + " ", '=', " " + v2);
    TrimSpaceAppendSpace(h, ' ');
    assert l[|h|] == ' ';
  }

  /** Rewriting a line of the pwquality copy keeps its key, but the line it gives has its
      head one space longer: rewriting it again adds another space before the '='. */
  lemma PwQualityRewrite(line: string, value: string)
    requires Candidate(PwQuality, line)
    ensures Candidate(PwQuality, RewriteLine(PwQuality, line, value))
    ensures Head(PwQuality, RewriteLine(PwQuality, line, value)) == Head(PwQuality, line) + " "
    ensures LineKey(PwQuality, RewriteLine(PwQuality, line, value)) == LineKey(PwQuality, line)
  {
    var h := Head(PwQuality, line);
    assert '#' !in h && '=' !in h by {
      RemoveChar(line, '#');
      SplitHeadFree(Remove(line, "#"), "=", '#');
      SplitHeadNoSep(Remove(line, "#"), '=');
    }
    PwQualityLine(h, value);
  }

  /** Rewriting a line of the vsftpd copy keeps its key and gives a line the copy rewrites to
      itself. */
  lemma VsftpdRewrite(line: string, value: string)
    requires Candidate(Vsftpd, line)
    ensures LineKey(Vsftpd, RewriteLine(Vsftpd, line, value)) == LineKey(Vsftpd, line)
    ensures RewriteLine(Vsftpd, RewriteLine(Vsftpd, line, value), value) == RewriteLine(Vsftpd, line, value)
  {
    var h := Head(Vsftpd, line);
    SplitHeadNoSep(line, '=');
    RemoveChar(Split(line, "=")[0], '#');
    RemoveChar(h, '#');
    SplitAtChar(h, '=', value);
  }

  /** Rewriting a line of the sshd copy keeps its key and gives a line the copy rewrites to
      itself. */
  lemma SshdRewrite(line: string, value: string)
    requires Candidate(Sshd, line)
    ensures LineKey(Sshd, RewriteLine(Sshd, line, value)) == LineKey(Sshd, line)
    ensures RewriteLine(Sshd, RewriteLine(Sshd, line, value), value) == RewriteLine(Sshd, line, value)
  {
    var h := Head(Sshd, line);
    SplitHeadNoSep(line, ' ');
    RemoveChar(Split(line, " ")[0], '#');
    RemoveChar(h, '#');
    SplitAtChar(h, ' ', value);
  }

  /** The sysctl copy reads `k = v` back as key `k`, whatever the spaces in `v`. */
  lemma SysctlEntryHead(k: string, value: string)
    requires ' ' !in k && '=' !in k && (k == [] || k[0] != '#')
    ensures Candidate(Sysctl, k + " = " + value)
    ensures Head(Sysctl, k + " = " + value) == k
  {
    var e := k + " = " + value;
    SysctlEntrySpaces(k, value);
    SplitAtChar(k, '=', Remove(value, " "));
    if k == [] {
      assert e[0] == ' ';
    } else {
      assert e[0] == k[0];
    }
  }

  /** With its spaces removed, an entry `k = v` is `k=` followed by `v` without spaces. */
  lemma SysctlEntrySpaces(k: string, value: string)
    requires ' ' !in k
    ensures Remove(k + " = " + value, " ") == k + ['='] + Remove(value, " ")
  {
    assert k + " = " + value == k + (" " + ("=" + (" " + value)));
    RemoveKeeps(k, " " + ("=" + (" " + value)), " ");
    RemoveLeading(" ", "=" + (" " + value));
    RemoveKeeps("=", " " + value, " ");
    RemoveLeading(" ", value);
    assert k + ("=" + Remove(value, " ")) == k + ['='] + Remove(value, " ");
  }

  /** Rewriting a line of the sysctl copy keeps its key and gives a line the copy rewrites to
      itself, unless the key itself starts with '#'. */
  lemma SysctlRewrite(line: string, value: string)
    requires Candidate(Sysctl, line)
    requires var h := Head(Sysctl, line); h == [] || h[0] != '#'
    ensures LineKey(Sysctl, RewriteLine(Sysctl, line, value)) == LineKey(Sysctl, line)
    ensures RewriteLine(Sysctl, RewriteLine(Sysctl, line, value), value) == RewriteLine(Sysctl, line, value)
  {
    var h := Head(Sysctl, line);
    RemoveChar(line, ' ');
    SplitHeadFree(Remove(line, " "), "=", ' ');
    SplitHeadNoSep(Remove(line, " "), '=');
    SysctlEntryHead(h, value);
  }

  /** A copy other than pwquality finds the key again in a line it rewrote, and rewrites that
      line to itself. */
  lemma RewriteStable(d: Dialect, line: string, value: string)
    requires DialectOk(d) && d != PwQuality
    requires LineKey(d, line).Some? && KeyOk(d, LineKey(d, line).value)
    ensures LineKey(d, RewriteLine(d, line, value)) == LineKey(d, line)
    ensures RewriteLine(d, RewriteLine(d, line, value), value) == RewriteLine(d, line, value)
  {
    match d {
      case Generic(_) => SameJoinerRewrite(d, line, value);
      case LoginDefs => SameJoinerRewrite(d, line, value);
      case Vsftpd => VsftpdRewrite(line, value);
      case Sshd => SshdRewrite(line, value);
      case Sysctl => SysctlRewrite(line, value);
    }
  }

  /** Every copy finds the key again in a line it rewrote. */
  lemma RewriteKeepsKey(d: Dialect, line: string, value: string)
    requires DialectOk(d)
    requires LineKey(d, line).Some? && KeyOk(d, LineKey(d, line).value)
    ensures LineKey(d, RewriteLine(d, line, value)) == LineKey(d, line)
  {
    if d == PwQuality {
      PwQualityRewrite(line, value);
    } else {
      RewriteStable(d, line, value);
    }
  }

  /** The generic copy reads `k + sep + v` back as key `k`. */
  lemma GenericEntry(sep: string, k: string, value: string)
    requires DialectOk(Generic(sep)) && KeyOk(Generic(sep), k)
    ensures Candidate(Generic(sep), Entry(Generic(sep), k, value))
    ensures Head(Generic(sep), Entry(Generic(sep), k, value)) == k
  {
    SameJoinerLine(Generic(sep), k, value);
  }

  /** The login.defs copy reads `k v` back as key `k`. */
  lemma LoginDefsEntry(k: string, value: string)
    requires KeyOk(LoginDefs, k)
    ensures Candidate(LoginDefs, Entry(LoginDefs, k, value))
    ensures Head(LoginDefs, Entry(LoginDefs, k, value)) == k
  {
    var e := Entry(LoginDefs, k, value);
    RemoveCharConcat(k + " ", value, '#');
    RemoveCharConcat(k, " ", '#');
    RemoveChar(k, '#');
    assert Remove(e, "#") == k + [' '] + Remove(value, "#");
    SplitAtChar(k, ' ', Remove(value, "#"));
  }

  /** The pwquality copy reads `k = v` back with head `k ` and key `k`. */
  lemma PwQualityEntry(k: string, value: string)
    requires KeyOk(PwQuality, k)
    ensures Candidate(PwQuality, Entry(PwQuality, k, value))
    ensures Head(PwQuality, Entry(PwQuality, k, value)) == k + " "
    ensures LineKey(PwQuality, Entry(PwQuality, k, value)) == Some(k)
  {
    PwQualityLine(k, value);
    TrimSpaceFixed(k);
  }

  /** Each copy reads a line it appended back with the key it was appended for. */
  lemma EntryKey(d: Dialect, k: string, value: string)
    requires DialectOk(d) && KeyOk(d, k)
    ensures LineKey(d, Entry(d, k, value)) == Some(k)
  {
    match d {
      case Generic(sep) => GenericEntry(sep, k, value); TrimSpaceFixed(k);
      case LoginDefs => LoginDefsEntry(k, value);
      case PwQuality => PwQualityEntry(k, value);
      case Vsftpd => SplitAtChar(k, '=', value); RemoveChar(k, '#');
      case Sshd => SplitAtChar(k, ' ', value); RemoveChar(k, '#');
      case Sysctl => SysctlEntryHead(k, value);
    }
  }

  /** Every copy but pwquality rewrites a line it appended to itself. */
  lemma EntryStable(d: Dialect, k: string, value: string)
    requires DialectOk(d) && KeyOk(d, k) && d != PwQuality
    ensures RewriteLine(d, Entry(d, k, value), value) == Entry(d, k, value)
  {
    match d {
      case Generic(sep) => GenericEntry(sep, k, value);
      case LoginDefs => LoginDefsEntry(k, value);
      case Vsftpd => SplitAtChar(k, '=', value); RemoveChar(k, '#');
      case Sshd => SplitAtChar(k, ' ', value); RemoveChar(k, '#');
      case Sysctl => SysctlEntryHead(k, value);
    }
  }

  // ---------------------------------------------------------------------------------
  // Whole files.

  /** Every copy, for well-formed options, keeps the keys of the lines it rewrites and
      finds each appended line's key again. */
  lemma DialectKeepsKeys(d: Dialect, lines: seq<string>, opts: map<string, string>)
    requires WellFormed(d, opts)
    ensures KeepsKeys(RuleOf(d), lines, opts)
  {
    var r := RuleOf(d);
    forall i | 0 <= i < |lines| && r.key(lines[i]).Some? && r.key(lines[i]).value in opts
      ensures r.key(r.rewrite(lines[i], opts[r.key(lines[i]).value])) == r.key(lines[i])
    {
      RewriteKeepsKey(d, lines[i], opts[LineKey(d, lines[i]).value]);
    }
    forall k | k in opts ensures r.key(r.entry(k, opts[k])) == Some(k) {
      EntryKey(d, k, opts[k]);
    }
  }

  /** Each copy but pwquality, for well-formed options, meets what a second application
      needs. */
  lemma DialectReapplicable(d: Dialect, lines: seq<string>, opts: map<string, string>)
    requires WellFormed(d, opts) && d != PwQuality
    ensures Reapplicable(RuleOf(d), lines, opts)
  {
    var r := RuleOf(d);
    DialectKeepsKeys(d, lines, opts);
    forall i | 0 <= i < |lines| && r.key(lines[i]).Some? && r.key(lines[i]).value in opts
      ensures r.rewrite(r.rewrite(lines[i], opts[r.key(lines[i]).value]), opts[r.key(lines[i]).value])
              == r.rewrite(lines[i], opts[r.key(lines[i]).value])
    {
      RewriteStable(d, lines[i], opts[LineKey(d, lines[i]).value]);
    }
    forall k | k in opts ensures r.rewrite(r.entry(k, opts[k]), opts[k]) == r.entry(k, opts[k]) {
      EntryStable(d, k, opts[k]);
    }
  }

  /** Each copy keeps every line free of newlines when the options are. */
  lemma DialectKeepsLines(d: Dialect, lines: seq<string>, opts: map<string, string>)
    requires DialectOk(d) && NoNewlines(opts)
    ensures KeepsLines(RuleOf(d), lines, opts)
  {
    var r := RuleOf(d);
    forall i | 0 <= i < |lines| && r.key(lines[i]).Some? && r.key(lines[i]).value in opts && '\n' !in lines[i]
      ensures '\n' !in r.rewrite(lines[i], opts[r.key(lines[i]).value])
    {
      RewriteFree(d, lines[i], opts[LineKey(d, lines[i]).value]);
    }
    forall k | k in opts ensures '\n' !in r.entry(k, opts[k]) {
      assert '\n' !in Joiner(d);
    }
  }

  /** Line count: every copy writes back the lines of the input, one for one, plus one line
      per key left over. */
  lemma LineCount(d: Dialect, content: string, opts: map<string, string>, order: seq<string>)
    requires DialectOk(d) && NoNewlines(opts)
    requires IsOrdering(order, Pass(RuleOf(d), Split(content, "\n"), opts).rest.Keys)
    ensures |Split(Output(RuleOf(d), content, opts, order), "\n")| ==
            |Split(content, "\n")| + |Pass(RuleOf(d), Split(content, "\n"), opts).rest|
    ensures |Pass(RuleOf(d), Split(content, "\n"), opts).rest| <= |opts|
  {
    DialectKeepsLines(d, Split(content, "\n"), opts);
    OutputLineCount(RuleOf(d), content, opts, order);
  }

  /** Idempotence: for well-formed options, every copy but pwquality leaves its own output
      as it is: the second run finds every key, changes no line and appends nothing. */
  lemma Idempotent(d: Dialect, content: string, opts: map<string, string>, order: seq<string>)
    requires WellFormed(d, opts) && d != PwQuality
    requires IsOrdering(order, Pass(RuleOf(d), Split(content, "\n"), opts).rest.Keys)
    ensures Pass(RuleOf(d), Split(Output(RuleOf(d), content, opts, order), "\n"), opts)
            == PassResult(Split(Output(RuleOf(d), content, opts, order), "\n"), map[])
    ensures IsOrdering([], Pass(RuleOf(d), Split(Output(RuleOf(d), content, opts, order), "\n"), opts).rest.Keys)
    ensures Output(RuleOf(d), Output(RuleOf(d), content, opts, order), opts, []) == Output(RuleOf(d), content, opts, order)
  {
    DialectReapplicable(d, Split(content, "\n"), opts);
    DialectKeepsLines(d, Split(content, "\n"), opts);
    SecondRunIsNoOp(RuleOf(d), content, opts, order);
  }

  /** Every copy, pwquality included, writes back a line carrying each desired key. */
  lemma AllKeysPresent(d: Dialect, content: string, opts: map<string, string>, order: seq<string>, k: string)
    requires WellFormed(d, opts)
    requires IsOrdering(order, Pass(RuleOf(d), Split(content, "\n"), opts).rest.Keys)
    requires k in opts
    ensures KeyOccurs(RuleOf(d), Split(Output(RuleOf(d), content, opts, order), "\n"), k)
  {
    DialectKeepsKeys(d, Split(content, "\n"), opts);
    DialectKeepsLines(d, Split(content, "\n"), opts);
    OutputCoversKeys(RuleOf(d), content, opts, order, k);
  }

  // ---------------------------------------------------------------------------------
  // The pwquality copy and concrete files.

  /** The pwquality copy is not idempotent: a line it rewrote is rewritten again to a line
      one character longer (one more space before the '='). */
  lemma PwQualityDrift(line: string, value: string)
    requires Candidate(PwQuality, line)
    ensures RewriteLine(PwQuality, RewriteLine(PwQuality, line, value), value)
            == Head(PwQuality, line) + " " + " = " + value
    ensures |RewriteLine(PwQuality, RewriteLine(PwQuality, line, value), value)|
            == |RewriteLine(PwQuality, line, value)| + 1
  {
    PwQualityRewrite(line, value);
  }

  /** The key and head that the sshd copy reads off a line `key value`, with or without a
      leading '#'. */
  lemma SshdKey(hash: string, key: string, value: string)
    requires hash == "" || hash == "#"
    requires '#' !in key && ' ' !in key
    ensures Head(Sshd, hash + key + " " + value) == key
    ensures LineKey(Sshd, hash + key + " " + value) == Some(key)
  {
    var line := hash + key + " " + value;
    assert line == (hash + key) + [' '] + value;
    SplitAtChar(hash + key, ' ', value);
    if hash == "#" {
      RemoveLeading("#", key);
    } else {
      assert hash + key == key;
    }
    RemoveChar(key, '#');
  }

  /** Activation: a directive that the sshd configuration only mentions in a comment
      (`#Port 22`) is rewritten in place, '#' dropped, and every other line is kept. */
  lemma CommentedDirectiveActivated(key: string, current: string, value: string, rest: string)
    requires '#' !in key && ' ' !in key && '\n' !in key && '\n' !in current
    ensures Pass(RuleOf(Sshd), Split("#" + key + " " + current + "\n" + rest, "\n"), map[key := value]).rest == map[]
    ensures Output(RuleOf(Sshd), "#" + key + " " + current + "\n" + rest, map[key := value], [])
            == key + " " + value + "\n" + rest
  {
    var r, opts := RuleOf(Sshd), map[key := value];
    var line := "#" + key + " " + current;
    var content := line + "\n" + rest;
    assert "#" + key + " " + current + "\n" + rest == content;
    assert '\n' !in line;
    SplitAtChar(line, '\n', rest);
    var tail := Split(rest, "\n");
    assert Split(content, "\n") == [line] + tail;
    ActivatedPass(key, current, value, tail);
    AppliedNoLeftover(r, [line] + tail, opts);
    JoinCons(key + " " + value, tail, "\n");
    JoinSplit(rest, "\n");
  }

  /** The line pass behind `CommentedDirectiveActivated`: the commented line comes first, so
      it is the one rewritten, and the lines after it are kept whatever they are. */
  lemma ActivatedPass(key: string, current: string, value: string, tail: seq<string>)
    requires '#' !in key && ' ' !in key
    ensures Pass(RuleOf(Sshd), ["#" + key + " " + current] + tail, map[key := value])
            == PassResult([key + " " + value] + tail, map[])
  {
    var r, opts := RuleOf(Sshd), map[key := value];
    var lines := ["#" + key + " " + current] + tail;
    SshdKey("#", key, current);
    assert FirstWithKey(r, lines, 0, key);
    PassMeaning(r, lines, opts);
    var p := Pass(r, lines, opts);
    var out := [key + " " + value] + tail;
    forall i | 0 <= i < |lines| ensures p.lines[i] == out[i] {
      if i > 0 {
        assert out[i] == lines[i];
        assert !FirstWithKey(r, lines, i, key);
      }
    }
    assert p.lines == out;
    assert KeyOccurs(r, lines, key);
    assert p.rest == map[];
  }

  /** The final newline: the empty line after a file's last "\n" is kept as a line of its
      own, so keys appended later follow an empty line. */
  lemma TrailingLineKept(d: Dialect, body: string, opts: map<string, string>)
    requires "" !in opts
    ensures Pass(RuleOf(d), Split(body + "\n", "\n"), opts)
            == PassResult(Pass(RuleOf(d), Split(body, "\n"), opts).lines + [""],
                          Pass(RuleOf(d), Split(body, "\n"), opts).rest)
  {
    var lines := Split(body, "\n");
    SplitTrailing(body, '\n');
    assert (lines + [""])[..|lines|] == lines;
    var p := Pass(RuleOf(d), lines, opts);
    assert Step(RuleOf(d), "", p.rest) == ("", p.rest) by {
      EmptyLineKey(d);
    }
  }

  /** An empty line is skipped by every copy but the sysctl one, which reads it as the
      empty key. */
  lemma EmptyLineKey(d: Dialect)
    ensures LineKey(d, "") == if d.Sysctl? then Some("") else None
  {
    if d.Sysctl? {
      assert Remove("", " ") == "";
      assert Split("", "=") == [""];
    }
  }

  /** When keys are appended, the text written back does not end with "\n", whether or not
      the file did. */
  lemma NoFinalNewline(d: Dialect, content: string, opts: map<string, string>, order: seq<string>)
    requires DialectOk(d) && NoNewlines(opts)
    requires IsOrdering(order, Pass(RuleOf(d), Split(content, "\n"), opts).rest.Keys)
    requires order != []
    ensures Output(RuleOf(d), content, opts, order) != []
    ensures Output(RuleOf(d), content, opts, order)[|Output(RuleOf(d), content, opts, order)| - 1] != '\n'
  {
    var r := RuleOf(d);
    var lines := Split(content, "\n");
    var p := Pass(r, lines, opts);
    var e := Entries(r, order, p.rest);
    var out := Output(r, content, opts, order);
    assert out == Join(p.lines + e, "\n");
    var j := |order| - 1;
    AppliedEntry(r, lines, opts, order, j);
    var last := e[j];
    assert last == Entry(d, order[j], opts[order[j]]);
    assert |Joiner(d)| > 0 && '\n' !in Joiner(d);
    assert last != [] && '\n' !in last;
    JoinAppend(p.lines, e, "\n");
    JoinEnds(e, "\n");
    var je := Join(e, "\n");
    assert je[|je| - 1] == last[|last| - 1];
    assert out[|out| - 1] == je[|je| - 1];
  }

  /** A first matching line that the rewrite lengthens makes the second pass differ. */
  lemma FirstLineGrows(m: seq<string>, opts: map<string, string>, i: int, k: string)
    requires k in opts && 0 <= i < |m|
    requires FirstWithKey(RuleOf(PwQuality), m, i, k)
    requires |RewriteLine(PwQuality, m[i], opts[k])| == |m[i]| + 1
    ensures Pass(RuleOf(PwQuality), m, opts).lines != m
  {
    FirstMatchRewritten(RuleOf(PwQuality), m, opts, i, k);
    assert Pass(RuleOf(PwQuality), m, opts).lines[i] != m[i];
  }

  /** Every line the pwquality copy writes for a desired key grows by one character when
      that copy rewrites it again. */
  lemma PwQualityWrittenGrows(lines: seq<string>, opts: map<string, string>, order: seq<string>, i: int, k: string)
    requires WellFormed(PwQuality, opts) && k in opts
    requires KeepsKeys(RuleOf(PwQuality), lines, opts)
    requires IsOrdering(order, Pass(RuleOf(PwQuality), lines, opts).rest.Keys)
    requires 0 <= i < |Applied(RuleOf(PwQuality), lines, opts, order)|
    requires FirstWithKey(RuleOf(PwQuality), Applied(RuleOf(PwQuality), lines, opts, order), i, k)
    ensures var m := Applied(RuleOf(PwQuality), lines, opts, order);
            |RewriteLine(PwQuality, m[i], opts[k])| == |m[i]| + 1
  {
    var r := RuleOf(PwQuality);
    var m := Applied(r, lines, opts, order);
    FirstLineOfApplied(r, lines, opts, order, i, k);
    var v := opts[k];
    if i < |lines| {
      PassMeaning(r, lines, opts);
      assert Pass(r, lines, opts).lines[i] == m[i];
      assert LineKey(PwQuality, lines[i]) == Some(k);
      PwQualityDrift(lines[i], v);
    } else {
      PwQualityEntry(k, v);
    }
  }

  /** The pwquality copy is not idempotent: for any desired key, applying it to its own output
      changes the first line carrying that key. */
  lemma PwQualityNotIdempotent(content: string, opts: map<string, string>, order: seq<string>, k: string)
    requires WellFormed(PwQuality, opts) && k in opts
    requires IsOrdering(order, Pass(RuleOf(PwQuality), Split(content, "\n"), opts).rest.Keys)
    ensures Pass(RuleOf(PwQuality), Split(Output(RuleOf(PwQuality), content, opts, order), "\n"), opts).lines
            != Split(Output(RuleOf(PwQuality), content, opts, order), "\n")
  {
    var r := RuleOf(PwQuality);
    var lines := Split(content, "\n");
    var m := Applied(r, lines, opts, order);
    DialectKeepsKeys(PwQuality, lines, opts);
    DialectKeepsLines(PwQuality, lines, opts);
    OutputSplits(r, content, opts, order);
    AllKeysPresent(PwQuality, content, opts, order, k);
    FirstOccurrence(r, m, k);
    var i :| 0 <= i < |m| && FirstWithKey(r, m, i, k);
    PwQualityWrittenGrows(lines, opts, order, i, k);
    FirstLineGrows(m, opts, i, k);
  }
}
