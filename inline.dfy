/** The file handling shared by the scripts that carry their own copy of the patcher: read
    the file, patch its text, write it back, each failure reported under the script's own
    message. */
module Inline {
  import opened Base
  import opened GoStrings
  import opened Directives
  import opened Patcher
  import opened Machine

  /** `after` is `before` with the file at `path` replaced by `content` patched with `opts`
      by copy `d`, the leftover keys appended in some order. */
  ghost predicate Patched(d: Dialect, content: string, opts: map<string, string>, path: string,
                          before: map<string, string>, after: map<string, string>)
  {
    exists order :: IsOrdering(order, Pass(RuleOf(d), Split(content, "\n"), opts).rest.Keys) &&
      after == before[path := Output(RuleOf(d), content, opts, order)]
  }

  /** The effect of writing back `content` patched with `opts`: the file is replaced, or,
      when it cannot be written, nothing changes and the error is reported after
      `writeMsg`. */
  ghost predicate WriteEffect(d: Dialect, content: string, opts: map<string, string>, path: string,
                              readOnly: set<string>, before: map<string, string>,
                              after: map<string, string>, err: Outcome, writeMsg: string)
  {
    if path in readOnly then after == before && err == Failure(writeMsg + OpenError(path, Denied))
    else Patched(d, content, opts, path, before, after) && err == Success
  }

  /** The effect of reading `path`, patching it and writing it back: a missing file is
      reported after `readMsg`, and nothing changes. */
  ghost predicate PatchEffect(d: Dialect, opts: map<string, string>, path: string,
                              readOnly: set<string>, before: map<string, string>,
                              after: map<string, string>, err: Outcome, readMsg: string, writeMsg: string)
  {
    if path !in before then after == before && err == Failure(readMsg + OpenError(path, NotFound))
    else WriteEffect(d, before[path], opts, path, readOnly, before, after, err, writeMsg)
  }

  /** The patch-and-write half, for a file whose text was read earlier. */
  method WritePatched(h: Host, d: Dialect, path: string, content: string, opts: map<string, string>,
                      writeMsg: string)
    returns (err: Outcome)
    modifies h`files
    ensures WriteEffect(d, content, opts, path, h.readOnly, old(h.files), h.files, err, writeMsg)
  {
    var patched, leftover := ApplyDirectives(d, content, opts);
    var written := h.WriteFile(path, patched);
    if written.Failure? {
      return Failure(writeMsg + written.message);
    }
    err := Success;
  }

  /** Read, patch and write back. */
  method PatchFile(h: Host, d: Dialect, path: string, opts: map<string, string>,
                   readMsg: string, writeMsg: string)
    returns (err: Outcome)
    modifies h`files
    ensures PatchEffect(d, opts, path, h.readOnly, old(h.files), h.files, err, readMsg, writeMsg)
  {
    var read := h.ReadFile(path);
    if read.Err? {
      return Failure(readMsg + read.message);
    }
    err := WritePatched(h, d, path, read.value, opts, writeMsg);
  }
}
