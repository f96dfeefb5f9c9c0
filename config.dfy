/** `utils.WriteOptsToFile`: the canonical patcher, wrapped in the file handling around
    it. */
module Config {
  import opened Base
  import opened GoStrings
  import opened Directives
  import opened Patcher
  import opened Machine

  /** The error `WriteOptsToFile` returns when `file` does not exist: the temporary copy
      cannot be made because the original cannot be opened. */
  function MissingFileError(file: string): string {
    "unable to create temp file: unable to open " + file + ": " + OpenError(file, NotFound)
  }

  /** The error `WriteOptsToFile` returns when `file` cannot be written. */
  function WriteError(file: string): string {
    "unable to write to " + file + ": " + OpenError(file, Denied)
  }

  /** What `WriteOptsToFile` does to the files: a missing file is reported and nothing
      changes; otherwise the file is replaced by its text patched with `opts` (the leftover
      keys appended in some order), unless it cannot be written. */
  ghost predicate WriteOptsEffect(readOnly: set<string>, opts: map<string, string>, sep: string,
                                  file: string, before: map<string, string>,
                                  after: map<string, string>, err: Outcome)
  {
    if file !in before then err == Failure(MissingFileError(file)) && after == before
    else
      err == (if file in readOnly then Failure(WriteError(file)) else Success) &&
      exists order :: IsOrdering(order, Pass(RuleOf(Generic(sep)), Split(before[file], "\n"), opts).rest.Keys) &&
        after == if file in readOnly then before
                 else before[file := Output(RuleOf(Generic(sep)), before[file], opts, order)]
  }

  /** `WriteOptsToFile(opts, sep, file)`. `leftover` is what the caller's `opts` map holds
      afterwards: every key the rewrite loop used has been deleted from it. The patched
      text is written straight back to `file`, with no temporary file renamed over it. */
  method WriteOptsToFile(h: Host, opts: map<string, string>, sep: string, file: string)
    returns (err: Outcome, leftover: map<string, string>)
    modifies h`files
    ensures WriteOptsEffect(h.readOnly, opts, sep, file, old(h.files), h.files, err)
    ensures leftover == if file in old(h.files)
                        then Pass(RuleOf(Generic(sep)), Split(old(h.files)[file], "\n"), opts).rest
                        else opts
  {
    var read := h.ReadFile(file);
    if read.Err? {
      return Failure(MissingFileError(file)), opts;
    }
    var patched;
    patched, leftover := ApplyDirectives(Generic(sep), read.value, opts);
    var written := h.WriteFile(file, patched);
    if written.Failure? {
      return Failure(WriteError(file)), leftover;
    }
    err := Success;
  }
}
