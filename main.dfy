/** The parts of `main.go` that compute something: counting media files in a directory
    tree, choosing the home directory, the yes/no prompts, and reading the lists of
    administrators out of `getent group sudo` and `net localgroup Administrators`. */
module Harden {
  import opened Base
  import opened GoStrings

  // ---------------------------------------------------------------------------------
  // Home directory

  /** The values of `runtime.GOOS` the program knows. */
  const OSMac := "darwin"
  const OSWindows := "windows"
  const OSLinux := "linux"

  const WindowsHome := "C:\\Users\\"
  const LinuxHome := "/home/"
  const MacHome := "/Users/"
  const Unsupported := "Unsupported OS: "

  /** The directory the media search starts from on `goos`, where `testDir` is the value
      of the `TEST_DIR` variable. An unknown system is fatal before `TEST_DIR` is read. */
  function HomeDirectory(goos: string, testDir: string): (r: Result<string>)
    ensures r.Ok? <==> goos == OSWindows || goos == OSLinux || goos == OSMac
    ensures r.Err? ==> r.message == Unsupported + goos
    ensures r.Ok? && testDir != "" ==> r.value == testDir
    ensures r.Ok? && testDir == "" ==> |r.value| > 0 && r.value[|r.value| - 1] == (if goos == OSWindows then '\\' else '/')
  {
    var home :=
      if goos == OSWindows then Some(WindowsHome)
      else if goos == OSLinux then Some(LinuxHome)
      else if goos == OSMac then Some(MacHome)
      else None;
    if home.None? then Err(Unsupported + goos)
    else if testDir != "" then Ok(testDir)
    else Ok(home.value)
  }

  // ---------------------------------------------------------------------------------
  // Media files

  /** `mediaExtensions`. */
  const MediaExtensions: seq<string> := [
    "mp3", "mp4", "txt", "png",
    "jpg", "jpeg", "gif", "wav",
    "mov", "avi", "wmv", "flv",
    "m4a", "m4v", "webm", "mkv",
    "doc", "docx", "xls", "xlsx",
    "ppt", "pptx", "pdf"
  ]

  /** What `os.ReadDir` gives for a directory: an error, or its entries. */
  datatype Listing = Unreadable | Readable(entries: seq<Entry>)

  /** An entry of a directory listing: a file, or a directory and its own listing. */
  datatype Entry = File(name: string) | Dir(name: string, listing: Listing)

  /** The extension `findMediaFiles` takes from a file name: the text after the last `.`,
      or none when the name has no `.`. */
  function Extension(name: string): (r: Option<string>)
    ensures r.None? <==> '.' !in name
    ensures r.Some? ==> '.' !in r.value && |r.value| < |name|
                        && name[|name| - |r.value| - 1..] == "." + r.value
  {
    var parts := Split(name, ".");
    SplitCount(name, '.');
    if |parts| < 2 then None
    else
      SplitLast(name, '.');
      Some(parts[|parts| - 1])
  }

  /** A name ending in `.` and a text without `.` has that text as its extension, whatever
      comes before. */
  lemma ExtensionOf(stem: string, ext: string)
    requires '.' !in ext
    ensures Extension(stem + "." + ext) == Some(ext)
  {
    var name := stem + "." + ext;
    assert name[|stem|] == '.';
    var e := Extension(name).value;
    var n := |name|;
    assert name[n - |ext| - 1] == '.' && name[n - |e| - 1] == '.';
    assert name[n - |ext|..] == ext && name[n - |e|..] == e;
    assert forall i :: n - |ext| <= i < n ==> name[i] == ext[i - (n - |ext|)];
    assert forall i :: n - |e| <= i < n ==> name[i] == e[i - (n - |e|)];
    assert |e| == |ext|;
  }

  /** How many entries of `exts` equal `ext`: the inner loop adds one per match. */
  function Hits(exts: seq<string>, ext: string): (n: nat)
    ensures n <= |exts|
    ensures n > 0 <==> ext in exts
  {
    if exts == [] then 0
    else
      assert ext in exts <==> ext in exts[..|exts| - 1] || ext == exts[|exts| - 1];
      Hits(exts[..|exts| - 1], ext) + (if exts[|exts| - 1] == ext then 1 else 0)
  }

  /** What one file adds to the count. The match is exact, so case counts. */
  function FileHits(name: string): (n: nat)
    ensures n <= |MediaExtensions|
    ensures n > 0 <==> Extension(name).Some? && Extension(name).value in MediaExtensions
  {
    var e := Extension(name);
    if e.None? then 0 else Hits(MediaExtensions, e.value)
  }

  /** `findMediaFiles` of a directory with listing `l`: -1 when it cannot be read, and
      otherwise what its entries add, an unreadable subdirectory adding -1. */
  function MediaCount(l: Listing): int
    decreases l
  {
    if l.Unreadable? then -1 else Total(l, |l.entries|)
  }

  /** What the first `n` entries of `l` add. */
  function Total(l: Listing, n: nat): int
    requires l.Readable? && n <= |l.entries|
    decreases l, n
  {
    if n == 0 then 0 else Total(l, n - 1) + Contribution(l.entries[n - 1])
  }

  /** What one entry adds. */
  function Contribution(e: Entry): int
    decreases e
  {
    match e
    case File(name) => FileHits(name)
    case Dir(_, listing) => MediaCount(listing)
  }

  /** Only the first `n` entries matter to what they add. */
  lemma {:induction false} TotalPrefix(x: seq<Entry>, y: seq<Entry>, n: nat)
    requires n <= |x| && n <= |y| && x[..n] == y[..n]
    ensures Total(Readable(x), n) == Total(Readable(y), n)
  {
    if n > 0 {
      assert x[n - 1] == x[..n][n - 1] == y[n - 1];
      assert x[..n - 1] == x[..n][..n - 1] == y[..n - 1];
      TotalPrefix(x, y, n - 1);
    }
  }

  /** The count of a listing is the sum of the counts of its parts. */
  lemma {:induction false} TotalAppend(a: seq<Entry>, b: seq<Entry>, k: nat)
    requires k <= |b|
    ensures Total(Readable(a + b), |a| + k) == MediaCount(Readable(a)) + Total(Readable(b), k)
  {
    if k == 0 {
      assert (a + b)[..|a|] == a[..|a|];
      TotalPrefix(a + b, a, |a|);
    } else {
      TotalAppend(a, b, k - 1);
      assert (a + b)[|a| + k - 1] == b[k - 1];
    }
  }

  /** An unreadable subdirectory lowers its parent's count by one: the -1 is added, not
      passed up. */
  lemma UnreadableSubtracts(a: seq<Entry>, name: string, b: seq<Entry>)
    ensures MediaCount(Readable(a + [Dir(name, Unreadable)] + b))
            == MediaCount(Readable(a)) + MediaCount(Readable(b)) - 1
  {
    var a' := a + [Dir(name, Unreadable)];
    TotalAppend(a', b, |b|);
    TotalAppend(a, [Dir(name, Unreadable)], 1);
    assert Contribution(Dir(name, Unreadable)) == -1;
    assert Total(Readable([Dir(name, Unreadable)]), 1) == -1;
  }

  /** Every directory of the tree can be read. */
  predicate AllReadable(l: Listing)
    decreases l
  {
    l.Readable? && forall k :: 0 <= k < |l.entries| ==> EntryReadable(l.entries[k])
  }

  predicate EntryReadable(e: Entry)
    decreases e
  {
    e.File? || AllReadable(e.listing)
  }

  /** In a tree that can be read throughout the count is never negative. */
  lemma {:induction false} ReadableNonNegative(l: Listing)
    requires AllReadable(l)
    ensures MediaCount(l) >= 0
    decreases l
  {
    TotalNonNegative(l, |l.entries|);
  }

  lemma {:induction false} TotalNonNegative(l: Listing, n: nat)
    requires AllReadable(l) && n <= |l.entries|
    ensures Total(l, n) >= 0
    decreases l, n
  {
    if n > 0 {
      TotalNonNegative(l, n - 1);
      var e := l.entries[n - 1];
      if e.Dir? {
        ReadableNonNegative(e.listing);
      }
    }
  }

  /** A directory whose entries are all unreadable subdirectories counts minus their
      number: with two or more, the total is below the -1 of an unreadable root. */
  lemma UnreadableOnly(entries: seq<Entry>)
    requires forall k :: 0 <= k < |entries| ==> entries[k].Dir? && entries[k].listing.Unreadable?
    ensures MediaCount(Readable(entries)) == -(|entries| as int)
  {
    UnreadableTotal(Readable(entries), |entries|);
  }

  lemma {:induction false} UnreadableTotal(l: Listing, n: nat)
    requires l.Readable? && n <= |l.entries|
    requires forall k :: 0 <= k < |l.entries| ==> l.entries[k].Dir? && l.entries[k].listing.Unreadable?
    ensures Total(l, n) == -(n as int)
  {
    if n > 0 {
      UnreadableTotal(l, n - 1);
      assert Contribution(l.entries[n - 1]) == -1;
    }
  }

  /** The extension is compared as it is written: `.mp3` counts and `.MP3` does not. */
  lemma CaseCounts(stem: string)
    ensures FileHits(stem + ".mp3") > 0
    ensures FileHits(stem + ".MP3") == 0
  {
    ExtensionOf(stem, "mp3");
    ExtensionOf(stem, "MP3");
    assert stem + ".mp3" == stem + "." + "mp3";
    assert stem + ".MP3" == stem + "." + "MP3";
    assert MediaExtensions[0] == "mp3";
    assert "MP3" !in MediaExtensions by {
      forall k | 0 <= k < |MediaExtensions| ensures MediaExtensions[k] != "MP3" {
        assert MediaExtensions[k][0] != 'M';
      }
    }
  }

  /** `findMediaFiles`. */
  method FindMediaFiles(l: Listing) returns (found: int)
    ensures found == MediaCount(l)
    decreases l
  {
    if l.Unreadable? {
      return -1;
    }
    var files := l.entries;
    found := 0;
    for i := 0 to |files|
      invariant found == Total(l, i)
    {
      var file := files[i];
      if file.File? {
        var split := Split(file.name, ".");
        if |split| < 2 {
          continue;
        }
        var extension := split[|split| - 1];
        var n := MatchExtension(extension);
        found := found + n;
        continue;
      }
      var sub := FindMediaFiles(file.listing);
      found := found + sub;
    }
  }

  /** The inner loop of `findMediaFiles`. */
  method MatchExtension(extension: string) returns (n: nat)
    ensures n == Hits(MediaExtensions, extension)
  {
    n := 0;
    for j := 0 to |MediaExtensions|
      invariant n == Hits(MediaExtensions[..j], extension)
    {
      assert MediaExtensions[..j + 1][..j] == MediaExtensions[..j];
      if extension != MediaExtensions[j] {
        continue;
      }
      n := n + 1;
    }
    assert MediaExtensions[..|MediaExtensions|] == MediaExtensions;
  }

  // ---------------------------------------------------------------------------------
  // Yes/no prompts

  /** What an answer typed at a yes/no prompt means. */
  datatype Verdict = Accept | Refuse | Again

  /** The reading of `verifyUninstallPrompt`, `verifyAuthorizedUserPrompt` and
      `verifyAdminUserPrompt`: after lower-casing, `y` or `yes` accepts, `n` or `no`
      refuses, and anything else asks again. */
  function Classify(res: string): (v: Verdict)
    ensures v == Accept <==> SpelledAs(res, "y", "Y") || SpelledAs(res, "yes", "YES")
    ensures v == Refuse <==> SpelledAs(res, "n", "N") || SpelledAs(res, "no", "NO")
  {
    var l := ToLower(res);
    LowerSpelling(res, "y", "Y");
    LowerSpelling(res, "yes", "YES");
    LowerSpelling(res, "n", "N");
    LowerSpelling(res, "no", "NO");
    if l == "y" || l == "yes" then Accept
    else if l == "n" || l == "no" then Refuse
    else Again
  }

  /** `res` is the word `lower` with each letter in either case, `upper` giving the
      capitals. */
  predicate SpelledAs(res: string, lower: string, upper: string)
    requires |lower| == |upper|
  {
    |res| == |lower| && forall i :: 0 <= i < |res| ==> res[i] == lower[i] || res[i] == upper[i]
  }

  /** A text lowers to a word of lower-case letters exactly when it spells that word in
      any mix of cases. */
  lemma LowerSpelling(res: string, lower: string, upper: string)
    requires |lower| == |upper|
    requires forall i :: 0 <= i < |lower| ==> 'a' <= lower[i] <= 'z' && upper[i] as int == lower[i] as int - 32
    ensures ToLower(res) == lower <==> SpelledAs(res, lower, upper)
  {
    var l := ToLower(res);
    if SpelledAs(res, lower, upper) {
      assert forall i :: 0 <= i < |l| ==> l[i] == lower[i];
    }
    if l == lower {
      assert forall i :: 0 <= i < |res| ==> l[i] == lower[i];
    }
  }

  /** The verdict depends on the letters only, not on their case. */
  lemma ClassifyIgnoresCase(res: string)
    ensures Classify(ToLower(res)) == Classify(res)
  {
    assert ToLower(ToLower(res)) == ToLower(res);
  }

  /** Examples of spellings that are understood; nothing around the word is trimmed. */
  lemma ClassifyExamples()
    ensures Classify("Y") == Accept && Classify("yEs") == Accept && Classify("YES") == Accept
    ensures Classify("N") == Refuse && Classify("No") == Refuse
    ensures Classify(" yes") == Again && Classify("") == Again && Classify("yes ") == Again
  {
    assert ToLower("yEs") == "yes";
    assert ToLower("YES") == "yes";
    assert ToLower("No") == "no";
  }

  /** The prompt's answer and how many inputs it read. */
  datatype Decision = Decision(yes: bool, read: nat)

  /** A yes/no prompt given the lines the operator types, in order. The prompt asks again
      until an answer is understood; `None` when none of `inputs` is. */
  function Decide(inputs: seq<string>): (r: Option<Decision>)
    ensures r.Some? ==> 1 <= r.value.read <= |inputs|
                        && Classify(inputs[r.value.read - 1]) == (if r.value.yes then Accept else Refuse)
                        && forall j :: 0 <= j < r.value.read - 1 ==> Classify(inputs[j]) == Again
    ensures r.None? ==> forall j :: 0 <= j < |inputs| ==> Classify(inputs[j]) == Again
  {
    if inputs == [] then None
    else
      match Classify(inputs[0])
      case Accept => Some(Decision(true, 1))
      case Refuse => Some(Decision(false, 1))
      case Again =>
        var r := Decide(inputs[1..]);
        if r.None? then None else Some(Decision(r.value.yes, r.value.read + 1))
  }

  // ---------------------------------------------------------------------------------
  // Administrators

  /** The part of `getent group sudo`'s output that lists the members: the fourth
      `:`-separated field, or none when there are fewer than four. Fields after it are
      ignored. */
  function MemberField(out: string): (r: Option<string>)
    ensures r.Some? <==> |Split(out, ":")| >= 4
    ensures r.Some? ==> r.value == Split(out, ":")[3]
  {
    var split := Split(out, ":");
    if |split| < 4 then None else Some(split[3])
  }

  /** The names `main.go` takes as sudoers from the output of `getent group sudo`: each
      `,`-separated member, trimmed. A failed command or an output it cannot parse gives
      no sudoers, as the nil map does there. */
  function Sudoers(res: Result<string>): (r: set<string>)
    ensures forall u :: u in r ==> Trimmed(u)
  {
    if res.Err? then {}
    else
      var field := MemberField(res.value);
      if field.None? then {}
      else
        var parts := Split(field.value, ",");
        forall u | u in parts ensures Trimmed(TrimSpace(u)) {
          TrimSpaceTrimmed(u);
        }
        set u | u in parts :: TrimSpace(u)
  }

  /** A group line `name:password:gid:` followed by members without `,`, `:` or white space
      at their ends, and by the line break `getent` prints, gives exactly those members. */
  lemma SudoersOfGroupLine(name: string, password: string, gid: string, members: seq<string>)
    requires ':' !in name && ':' !in password && ':' !in gid
    requires |members| >= 1
    requires forall k :: 0 <= k < |members| ==> ',' !in members[k] && ':' !in members[k]
    requires forall k :: 0 <= k < |members| ==> Trimmed(members[k])
    ensures Sudoers(Ok(Join([name, password, gid, Join(members, ",") + "\n"], ":")))
            == set u | u in members
  {
    JoinMemberFree(members, ':');
    FieldOfGroupLine(name, password, gid, Join(members, ",") + "\n");
    MembersOfList(members);
  }

  /** The fourth field of a line whose fields hold no `:`. */
  lemma FieldOfGroupLine(name: string, password: string, gid: string, list: string)
    requires ':' !in name && ':' !in password && ':' !in gid && ':' !in list
    ensures MemberField(Join([name, password, gid, list], ":")) == Some(list)
  {
    var fields := [name, password, gid, list];
    assert forall k :: 0 <= k < 4 ==> ':' !in fields[k];
    SplitJoin(fields, ':');
  }

  /** Trimmed members without `,`, joined by `,` and followed by a line break, come back as
      the same set once split and trimmed. */
  lemma MembersOfList(members: seq<string>)
    requires |members| >= 1
    requires forall k :: 0 <= k < |members| ==> ',' !in members[k]
    requires forall k :: 0 <= k < |members| ==> Trimmed(members[k])
    ensures (set u | u in Split(Join(members, ",") + "\n", ",") :: TrimSpace(u)) == set u | u in members
  {
    var n := |members|;
    var typed := members[..n - 1] + [members[n - 1] + "\n"];
    JoinLast(members, ",", "\n");
    assert forall k :: 0 <= k < n ==> ',' !in typed[k] by {
      assert forall k :: 0 <= k < n - 1 ==> typed[k] == members[k];
    }
    SplitJoin(typed, ',');
    TrimmedMembers(members, typed);
  }

  /** Trimming gives back each trimmed member, the last with its line break. */
  lemma TrimmedMembers(members: seq<string>, typed: seq<string>)
    requires |members| >= 1
    requires forall k :: 0 <= k < |members| ==> Trimmed(members[k])
    requires typed == members[..|members| - 1] + [members[|members| - 1] + "\n"]
    ensures (set u | u in typed :: TrimSpace(u)) == set u | u in members
  {
    var n := |members|;
    TrimSpaceAppendSpace(members[n - 1], '\n');
    forall k | 0 <= k < n ensures TrimSpace(typed[k]) == members[k] {
      TrimSpaceFixed(members[k]);
      if k < n - 1 {
        assert typed[k] == members[k];
      }
    }
    forall u | u in members ensures u in set v | v in typed :: TrimSpace(v) {
      var k :| 0 <= k < n && members[k] == u;
      assert TrimSpace(typed[k]) == u;
    }
  }

  lemma {:induction false} JoinMemberFree(parts: seq<string>, c: char)
    requires c != ','
    requires forall k :: 0 <= k < |parts| ==> c !in parts[k]
    ensures c !in Join(parts, ",")
  {
    if |parts| > 1 {
      JoinMemberFree(parts[1..], c);
    }
  }

  /** The loop of `main.go` that fills `sudoersList`. */
  method ParseSudoers(res: Result<string>) returns (list: map<string, bool>)
    ensures list.Keys == Sudoers(res)
    ensures forall u :: u in list ==> list[u]
  {
    list := map[];
    if res.Err? {
      return;
    }
    var split := Split(res.value, ":");
    if |split| < 4 {
      return;
    }
    var members := Split(split[3], ",");
    for i := 0 to |members|
      invariant list.Keys == set u | u in members[..i] :: TrimSpace(u)
      invariant forall u :: u in list ==> list[u]
    {
      assert members[..i + 1] == members[..i] + [members[i]];
      var user := TrimSpace(members[i]);
      list := list[user := true];
    }
    assert members[..|members|] == members;
  }

  /** The rule under the listing's header: 79 dashes. */
  const Rule: string := Dashes(79)

  function Dashes(n: nat): (r: string)
    ensures |r| == n && forall k :: 0 <= k < n ==> r[k] == '-'
  {
    if n == 0 then "" else "-" + Dashes(n - 1)
  }
  const Completed := "The command completed successfully."
  const Builtin := "Administrator"
  /** The run-time error of `strings.Split(...)[1]` when the output has no rule. */
  const NoRulePanic := "runtime error: index out of range [1] with length 1"

  /** The lines of `net localgroup Administrators`' output that may name administrators:
      the text after the first rule, with the first copy of the closing message deleted,
      split into lines, without the first (the rest of the rule's own line). */
  function AdminLines(out: string): (r: Result<seq<string>>)
    ensures r.Err? <==> !Contains(out, Rule)
    ensures r.Err? ==> r.message == NoRulePanic
  {
    var parts := Split(out, Rule);
    SplitHead(out, Rule);
    if |parts| < 2 then Err(NoRulePanic)
    else Ok(Split(RemoveFirst(parts[1], Completed), "\n")[1..])
  }

  /** A trimmed line that names an administrator: not blank and not the built-in
      account. */
  predicate Listed(admin: string) {
    admin != Builtin && admin != ""
  }

  /** The administrators `main.go` takes from the output of `net localgroup
      Administrators`; a failed command gives none and an output without a rule stops
      the program. */
  function Administrators(res: Result<string>): (r: Result<set<string>>)
    ensures res.Err? ==> r == Ok({})
    ensures r.Ok? ==> Builtin !in r.value && "" !in r.value
    ensures r.Ok? ==> forall u :: u in r.value ==> Trimmed(u)
    ensures res.Ok? ==> (r.Err? <==> !Contains(res.value, Rule))
  {
    if res.Err? then Ok({})
    else
      var lines := AdminLines(res.value);
      if lines.Err? then Err(lines.message)
      else
        forall u | u in lines.value ensures Trimmed(TrimSpace(u)) {
          TrimSpaceTrimmed(u);
        }
        Ok(AdminNames(lines.value))
  }

  /** The administrators named by `lines`, trimmed. */
  function AdminNames(lines: seq<string>): set<string> {
    set u | u in lines && Listed(TrimSpace(u)) :: TrimSpace(u)
  }

  /** One more line adds its trimmed name when that names an administrator. */
  lemma AdminNamesSnoc(lines: seq<string>, x: string)
    ensures AdminNames(lines + [x]) ==
            AdminNames(lines) + if Listed(TrimSpace(x)) then {TrimSpace(x)} else {}
  {
    var l := lines + [x];
    assert forall u :: u in l <==> u in lines || u == x;
  }

  /** A listing made of a header without dashes, the rule, one administrator per line
      and the closing message gives exactly the names listed, without the built-in
      account and blank lines. */
  lemma AdministratorsOfListing(header: string, names: seq<string>)
    requires '-' !in header
    requires forall k :: 0 <= k < |names| ==> '\n' !in names[k] && Trimmed(names[k])
    requires forall k :: 0 <= k < |names| ==> !Contains(names[k], Rule) && !Contains(names[k], Completed)
    ensures Administrators(Ok(header + Rule + GroupListing(names, Completed)))
            == Ok(set u | u in names && Listed(u))
  {
    RuleAndMessage();
    ListingSplit(header, names, Rule, Completed);
    ListingLines(names, Rule, Completed);
    NamesOfListing(names);
  }

  /** The text after the rule: a line break, the names one per line, the closing message
      and a last line break. */
  function GroupListing(names: seq<string>, done: string): string {
    Join([""] + names + [done, ""], "\n")
  }

  lemma RuleAndMessage()
    ensures Rule != [] && Rule[0] == '-' && '\n' !in Rule
    ensures Completed != [] && '\n' !in Completed && |Completed| < |Rule|
  {
  }

  /** The listing is the names' lines, then the message on a line of its own. */
  lemma ListingShape(names: seq<string>, done: string)
    ensures GroupListing(names, done) == Join([""] + names, "\n") + "\n" + done + "\n"
  {
    var front := [""] + names;
    JoinAppend(front, [done, ""], "\n");
    assert front + [done, ""] == [""] + names + [done, ""];
    assert Join([done, ""], "\n") == done + "\n" + "";
  }

  /** The names and the empty first line hold neither the rule nor the message. */
  lemma FrontFree(names: seq<string>, rule: string, done: string)
    requires rule != [] && done != []
    requires forall k :: 0 <= k < |names| ==> !Contains(names[k], rule) && !Contains(names[k], done)
    ensures var front := [""] + names;
            forall k :: 0 <= k < |front| ==> !Contains(front[k], rule) && !Contains(front[k], done)
  {
    EmptyAbsent(rule);
    EmptyAbsent(done);
    var front := [""] + names;
    assert forall k :: 1 <= k < |front| ==> front[k] == names[k - 1];
  }

  /** The split at the rule gives the header and the listing. */
  lemma ListingSplit(header: string, names: seq<string>, rule: string, done: string)
    requires rule != [] && rule[0] !in header && '\n' !in rule
    requires done != [] && |done| < |rule|
    requires forall k :: 0 <= k < |names| ==> !Contains(names[k], rule) && !Contains(names[k], done)
    ensures Split(header + rule + GroupListing(names, done), rule) == [header, GroupListing(names, done)]
  {
    var p := Join([""] + names, "\n");
    ListingShape(names, done);
    FrontFree(names, rule, done);
    NotInJoin([""] + names, '\n', rule);
    EmptyAbsent(rule);
    ShorterAbsent(done, rule);
    NotInJoin([done, ""], '\n', rule);
    assert Join([done, ""], "\n") == done + "\n" + "";
    assert p + "\n" + done + "\n" == p + ['\n'] + (done + "\n");
    ContainsAcross(p, '\n', done + "\n", rule);
    FreeFront(header, rule);
    SplitOnce(header, rule, GroupListing(names, done));
  }

  /** Deleting the message leaves the names' lines and two empty lines, the first of
      which the parse drops. */
  lemma ListingLines(names: seq<string>, rule: string, done: string)
    requires rule != [] && done != [] && '\n' !in done
    requires forall k :: 0 <= k < |names| ==> '\n' !in names[k]
    requires forall k :: 0 <= k < |names| ==> !Contains(names[k], rule) && !Contains(names[k], done)
    ensures Split(RemoveFirst(GroupListing(names, done), done), "\n")[1..] == names + ["", ""]
  {
    MessageRemoved(names, rule, done);
    LinesAfterRemoval(names);
  }

  /** The first copy of the message is the one after the names. */
  lemma MessageRemoved(names: seq<string>, rule: string, done: string)
    requires rule != [] && done != [] && '\n' !in done
    requires forall k :: 0 <= k < |names| ==> !Contains(names[k], rule) && !Contains(names[k], done)
    ensures RemoveFirst(GroupListing(names, done), done) == Join([""] + names, "\n") + "\n" + "\n"
  {
    ListingShape(names, done);
    FrontFree(names, rule, done);
    NotInJoin([""] + names, '\n', done);
    RemoveAfterLine(Join([""] + names, "\n"), '\n', done);
  }

  lemma RemoveAfterLine(p: string, c: char, done: string)
    requires c !in done && !Contains(p, done)
    ensures RemoveFirst(p + [c] + done + [c], done) == p + [c] + [c]
  {
    IndexAfterSeparator(p, c, done, [c]);
    var s := p + [c] + done + [c];
    assert s[..|p| + 1] == p + [c];
    assert s[|p| + 1 + |done|..] == [c];
  }

  /** The names' lines followed by two line breaks split back into an empty line, the
      names and two empty lines. */
  lemma LinesAfterRemoval(names: seq<string>)
    requires forall k :: 0 <= k < |names| ==> '\n' !in names[k]
    ensures Split(Join([""] + names, "\n") + "\n" + "\n", "\n")[1..] == names + ["", ""]
  {
    BreakFree(names);
    SplitTwoEmpty([""] + names, '\n');
  }

  lemma SplitTwoEmpty(front: seq<string>, c: char)
    requires |front| >= 1
    requires forall k :: 0 <= k < |front + ["", ""]| ==> c !in (front + ["", ""])[k]
    ensures Split(Join(front, [c]) + [c] + [c], [c]) == front + ["", ""]
  {
    JoinAppend(front, ["", ""], [c]);
    assert Join(["", ""], [c]) == [c];
    SplitJoin(front + ["", ""], c);
  }

  lemma BreakFree(names: seq<string>)
    requires forall k :: 0 <= k < |names| ==> '\n' !in names[k]
    ensures var pieces := ([""] + names) + ["", ""];
            forall k :: 0 <= k < |pieces| ==> '\n' !in pieces[k]
  {
    var pieces := [""] + names + ["", ""];
    assert forall k :: 1 <= k <= |names| ==> pieces[k] == names[k - 1];
  }

  /** Trimmed names followed by two empty lines name the listed ones. */
  lemma NamesOfListing(names: seq<string>)
    requires forall k :: 0 <= k < |names| ==> Trimmed(names[k])
    ensures AdminNames(names + ["", ""]) == set u | u in names && Listed(u)
  {
    forall k | 0 <= k < |names| ensures TrimSpace(names[k]) == names[k] {
      TrimSpaceFixed(names[k]);
    }
    assert TrimSpace("") == "";
    var l := names + ["", ""];
    assert forall u :: u in l <==> u in names || u == "";
  }

  /** The loop of `main.go` that fills `adminList`. */
  method ParseAdministrators(res: Result<string>) returns (r: Result<map<string, bool>>)
    ensures r.Err? <==> Administrators(res).Err?
    ensures r.Err? ==> r.message == Administrators(res).message
    ensures r.Ok? ==> r.value.Keys == Administrators(res).value
    ensures r.Ok? ==> forall u :: u in r.value ==> r.value[u]
  {
    if res.Err? {
      return Ok(map[]);
    }
    var parts := Split(res.value, Rule);
    if |parts| < 2 {
      return Err(NoRulePanic);
    }
    var actualList := RemoveFirst(parts[1], Completed);
    var split := Split(actualList, "\n")[1..];
    var list: map<string, bool> := map[];
    for i := 0 to |split|
      invariant list.Keys == AdminNames(split[..i])
      invariant forall u :: u in list ==> list[u]
    {
      assert split[..i + 1] == split[..i] + [split[i]];
      AdminNamesSnoc(split[..i], split[i]);
      var admin := TrimSpace(split[i]);
      if admin == Builtin || admin == "" {
        continue;
      }
      list := list[admin := true];
    }
    assert split[..|split|] == split;
    r := Ok(list);
  }
}
