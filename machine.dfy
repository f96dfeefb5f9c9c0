/** The machine the hardening scripts act on, as far as they can see it: the files they
    read and write, the answers the operator types at prompts, and the programs they run.
    What the operating system would decide (which files are read-only, which programs
    fail, what a program prints) is fixed when the machine is built. */
module Machine {
  import opened Base

  /** One answer the operator gives at a prompt. */
  datatype Answer = Yes | No | Text(text: string)

  /** The text of the Go `*PathError` for opening `path`. */
  function OpenError(path: string, why: string): string {
    "open " + path + ": " + why
  }

  /** `syscall.ENOENT` and `syscall.EACCES` as Go prints them. */
  const NotFound := "no such file or directory"
  const Denied := "permission denied"

  /** A yes/no prompt is accepted only by a `Yes` answer; any other answer, or none,
      declines it. */
  predicate Confirmed(a: seq<Answer>) {
    a != [] && a[0] == Yes
  }

  /** The text typed at a free-text prompt; empty when the answer is not text. */
  function Response(a: seq<Answer>): string {
    if a != [] && a[0].Text? then a[0].text else ""
  }

  /** The text typed at a prompt offering `default`; the default when no text is typed. */
  function ResponseOr(a: seq<Answer>, default: string): string {
    if a != [] && a[0].Text? then a[0].text else default
  }

  /** What `(*exec.Cmd).Run` reports for command line `inv` on a machine whose failing
      command lines are the keys of `failing`: the text of the error the line fails with
      (`exit status N` for a program that exits with code N, the `exec:` error of one
      that cannot be started), or success. */
  function RunResult(failing: map<string, string>, inv: string): (o: Outcome)
    ensures o.Failure? <==> inv in failing
    ensures o.Failure? ==> o.message == failing[inv]
  {
    if inv in failing then Failure(failing[inv]) else Success
  }

  /** What command line `inv` prints when it runs to completion. */
  function Printed(outputs: map<string, string>, inv: string): string {
    if inv in outputs then outputs[inv] else ""
  }

  /** What `(*exec.Cmd).Output` gives for command line `inv`: the error `Run` would report,
      or what the program prints, which is nothing when `outputs` records no text. */
  function OutputResult(failing: map<string, string>, outputs: map<string, string>, inv: string)
    : (r: Result<string>)
    ensures r.Err? <==> inv in failing
    ensures r.Err? ==> r.message == failing[inv]
    ensures r.Ok? && inv in outputs ==> r.value == outputs[inv]
    ensures r.Ok? && inv !in outputs ==> r.value == ""
  {
    if inv in failing then Err(failing[inv])
    else if inv in outputs then Ok(outputs[inv])
    else Ok("")
  }

  /** The answers left once a prompt has taken its answer. */
  function Rest(a: seq<Answer>): (r: seq<Answer>)
    ensures a != [] ==> |r| == |a| - 1
    ensures a == [] ==> r == []
  {
    if a == [] then [] else a[1..]
  }

  /** The answers left once `n` prompts have taken theirs. */
  function Skip(a: seq<Answer>, n: nat): seq<Answer> {
    if n <= |a| then a[n..] else []
  }

  /** One more prompt after `n` leaves the answers after `n + 1`. */
  lemma RestSkip(a: seq<Answer>, n: nat)
    ensures Rest(Skip(a, n)) == Skip(a, n + 1)
  {
  }

  /** What `os.ReadFile(path)` gives. */
  function ReadResult(files: map<string, string>, path: string): (r: Result<string>)
    ensures r.Ok? <==> path in files
    ensures r.Ok? ==> r.value == files[path]
    ensures r.Err? ==> r.message == OpenError(path, NotFound)
  {
    if path in files then Ok(files[path]) else Err(OpenError(path, NotFound))
  }

  /** The machine. `files`, `answers` and `ran` change as scripts act; the rest is the
      environment's fixed behaviour. */
  class Host {
    /** The contents of every file that exists. */
    var files: map<string, string>
    /** The answers the operator will still give, in order. */
    var answers: seq<Answer>
    /** Every command line started so far, in order. */
    var ran: seq<string>

    /** Files that cannot be written. */
    const readOnly: set<string>
    /** Command lines that fail, each with the text of its error. */
    const failing: map<string, string>
    /** What each command line prints on standard output; a line without an entry prints
        nothing. */
    const outputs: map<string, string>

    constructor (files: map<string, string>, answers: seq<Answer>, readOnly: set<string>,
                 failing: map<string, string>, outputs: map<string, string>)
      ensures this.files == files && this.answers == answers && ran == []
      ensures this.readOnly == readOnly && this.failing == failing && this.outputs == outputs
    {
      this.files := files;
      this.answers := answers;
      ran := [];
      this.readOnly := readOnly;
      this.failing := failing;
      this.outputs := outputs;
    }

    /** `os.ReadFile`. */
    method ReadFile(path: string) returns (r: Result<string>)
      ensures r == ReadResult(files, path)
    {
      if path in files {
        r := Ok(files[path]);
      } else {
        r := Err(OpenError(path, NotFound));
      }
    }

    /** `os.OpenFile(path, os.O_RDWR, 0644)` followed by `io.ReadAll`: the file must exist,
        and a file that cannot be written cannot be opened for writing either. */
    method OpenReadWrite(path: string) returns (r: Result<string>)
      ensures path !in files ==> r == Err(OpenError(path, NotFound))
      ensures path in files && path in readOnly ==> r == Err(OpenError(path, Denied))
      ensures path in files && path !in readOnly ==> r == Ok(files[path])
    {
      if path !in files {
        r := Err(OpenError(path, NotFound));
      } else if path in readOnly {
        r := Err(OpenError(path, Denied));
      } else {
        r := Ok(files[path]);
      }
    }

    /** `os.WriteFile`: replaces the whole content, creating the file if needed. */
    method WriteFile(path: string, data: string) returns (o: Outcome)
      modifies this`files
      ensures path in readOnly ==> o == Failure(OpenError(path, Denied)) && files == old(files)
      ensures path !in readOnly ==> o == Success && files == old(files)[path := data]
    {
      if path in readOnly {
        o := Failure(OpenError(path, Denied));
      } else {
        files := files[path := data];
        o := Success;
      }
    }

    /** `(*exec.Cmd).Run` for the program of command line `inv`: it runs to completion. */
    method Exec(inv: string) returns (o: Outcome)
      modifies this`ran
      ensures ran == old(ran) + [inv]
      ensures o == RunResult(failing, inv)
    {
      ran := ran + [inv];
      o := if inv in failing then Failure(failing[inv]) else Success;
    }

    /** `(*exec.Cmd).Output` for the program of command line `inv`: it runs and its
        standard output is collected. */
    method ExecOutput(inv: string) returns (r: Result<string>)
      modifies this`ran
      ensures ran == old(ran) + [inv]
      ensures r == OutputResult(failing, outputs, inv)
    {
      ran := ran + [inv];
      if inv in failing {
        r := Err(failing[inv]);
      } else if inv in outputs {
        r := Ok(outputs[inv]);
      } else {
        r := Ok("");
      }
    }

    /** `prompts.Confirm`. */
    method Confirm() returns (yes: bool)
      modifies this`answers
      ensures yes == Confirmed(old(answers)) && answers == Rest(old(answers))
    {
      yes := answers != [] && answers[0] == Yes;
      answers := Rest(answers);
    }

    /** `prompts.RawResponsePrompt`. */
    method RawResponse() returns (s: string)
      modifies this`answers
      ensures s == Response(old(answers)) && answers == Rest(old(answers))
    {
      s := if answers != [] && answers[0].Text? then answers[0].text else "";
      answers := Rest(answers);
    }

    /** `prompts.RawResponseWithDefaultPrompt`. */
    method RawResponseWithDefault(default: string) returns (s: string)
      modifies this`answers
      ensures s == ResponseOr(old(answers), default) && answers == Rest(old(answers))
    {
      s := if answers != [] && answers[0].Text? then answers[0].text else default;
      answers := Rest(answers);
    }
  }
}
