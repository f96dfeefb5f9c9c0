/** The loop shared by every copy of the configuration-directive patcher, stated once for an
    arbitrary treatment of single lines. The loop rewrites the first line whose key is a
    desired key and drops that key from the desired map; every key still desired afterwards
    is appended as a new line. What a line's key is, how a matched line is rewritten and
    what an appended line looks like are the parameters collected in `LineRule`. */
module Directives {
  import opened Base
  import opened GoStrings

  /** How one copy of the patcher treats a single line. */
  datatype LineRule = LineRule(
    key: string -> Option<string>,        // the key looked up for a line; None when skipped
    rewrite: (string, string) -> string,  // the replacement of a matched line for a value
    entry: (string, string) -> string)    // the line appended for a key and its value

  /** One iteration of the rewrite loop: the new line and the keys still desired. */
  function Step(r: LineRule, line: string, opts: map<string, string>): (string, map<string, string>) {
    match r.key(line)
    case Some(k) => if k in opts then (r.rewrite(line, opts[k]), opts - {k}) else (line, opts)
    case None => (line, opts)
  }

  /** The lines after the rewrite loop and the desired map it leaves behind. */
  datatype PassResult = PassResult(lines: seq<string>, rest: map<string, string>)

  /** The rewrite loop over `lines`, in order. */
  function Pass(r: LineRule, lines: seq<string>, opts: map<string, string>): (p: PassResult)
    ensures |p.lines| == |lines|
    ensures p.rest.Keys <= opts.Keys
    decreases |lines|
  {
    if lines == [] then PassResult([], opts)
    else
      var prev := Pass(r, lines[..|lines| - 1], opts);
      var (line, rest) := Step(r, lines[|lines| - 1], prev.rest);
      PassResult(prev.lines + [line], rest)
  }

  /** The pass over one more line is the pass over the lines before it and one step:
      what the rewrite loop's invariant needs to go on. */
  lemma PassSnoc(r: LineRule, lines: seq<string>, i: nat, opts: map<string, string>,
                 out: seq<string>, out': seq<string>, rest: map<string, string>, rest': map<string, string>)
    requires i < |lines| && i < |out| && |out'| == |out|
    requires Pass(r, lines[..i], opts) == PassResult(out[..i], rest)
    requires Step(r, lines[i], rest) == (out'[i], rest')
    requires forall j :: 0 <= j < |out| && j != i ==> out'[j] == out[j]
    ensures Pass(r, lines[..i + 1], opts) == PassResult(out'[..i + 1], rest')
  {
    assert lines[..i + 1][..i] == lines[..i];
    assert out'[..i + 1] == out[..i] + [out'[i]];
  }

  /** `order` lists every key of `keys` exactly once: one of the orders in which Go's
      `range` over a map may visit the keys. */
  ghost predicate IsOrdering(order: seq<string>, keys: set<string>) {
    && (forall i, j :: 0 <= i < j < |order| ==> order[i] != order[j])
    && (forall k :: k in order <==> k in keys)
  }

  /** The lines appended for the keys of `rest`, visited in `order`. */
  function Entries(r: LineRule, order: seq<string>, rest: map<string, string>): (e: seq<string>)
    requires forall k :: k in order ==> k in rest
    ensures |e| == |order|
    ensures forall j :: 0 <= j < |order| ==> e[j] == r.entry(order[j], rest[order[j]])
  {
    seq(|order|, j requires 0 <= j < |order| => r.entry(order[j], rest[order[j]]))
  }

  /** Appending a key to the order appends its entry. */
  lemma EntriesSnoc(r: LineRule, order: seq<string>, k: string, rest: map<string, string>)
    requires forall k' :: k' in order ==> k' in rest
    requires k in rest
    ensures Entries(r, order + [k], rest) == Entries(r, order, rest) + [r.entry(k, rest[k])]
  {
    var a, b := Entries(r, order + [k], rest), Entries(r, order, rest) + [r.entry(k, rest[k])];
    assert |a| == |b|;
    forall j | 0 <= j < |a| ensures a[j] == b[j] {
      if j < |order| {
        assert (order + [k])[j] == order[j];
      }
    }
  }

  // ---------------------------------------------------------------------------------
  // What the rewrite loop computes, stated without the loop.

  /** Some line of `lines` has key `k`. */
  ghost predicate KeyOccurs(r: LineRule, lines: seq<string>, k: string) {
    exists i :: 0 <= i < |lines| && r.key(lines[i]) == Some(k)
  }

  /** Line `i` is the first line whose key is `k`. */
  ghost predicate FirstWithKey(r: LineRule, lines: seq<string>, i: int, k: string)
    requires 0 <= i < |lines|
  {
    r.key(lines[i]) == Some(k) && forall j :: 0 <= j < i ==> r.key(lines[j]) != Some(k)
  }

  /** What line `i` becomes: rewritten exactly when it is the first line carrying a
      desired key, and otherwise kept as it is. */
  ghost function Expected(r: LineRule, lines: seq<string>, opts: map<string, string>, i: int): string
    requires 0 <= i < |lines|
  {
    match r.key(lines[i])
    case Some(k) =>
      if k in opts && FirstWithKey(r, lines, i, k) then r.rewrite(lines[i], opts[k]) else lines[i]
    case None => lines[i]
  }

  lemma ExpectedOnPrefix(r: LineRule, lines: seq<string>, x: string, opts: map<string, string>, i: int)
    requires 0 <= i < |lines|
    ensures Expected(r, lines + [x], opts, i) == Expected(r, lines, opts, i)
  {
    var l := lines + [x];
    assert l[i] == lines[i];
    assert forall j :: 0 <= j < i ==> l[j] == lines[j];
  }

  /** The rewrite loop, line by line: a line changes only if it is the first one carrying a
      desired key, and the keys left are exactly the desired keys that no line carries,
      with their values. */
  lemma {:induction false} PassMeaning(r: LineRule, lines: seq<string>, opts: map<string, string>)
    ensures forall i :: 0 <= i < |lines| ==> Pass(r, lines, opts).lines[i] == Expected(r, lines, opts, i)
    ensures forall k :: k in Pass(r, lines, opts).rest <==> k in opts && !KeyOccurs(r, lines, k)
    ensures forall k :: k in Pass(r, lines, opts).rest ==> Pass(r, lines, opts).rest[k] == opts[k]
    decreases |lines|
  {
    if lines != [] {
      var n := |lines| - 1;
      var init, x := lines[..n], lines[n];
      assert lines == init + [x];
      PassMeaning(r, init, opts);
      PassLinesSnoc(r, init, x, opts);
      PassRestSnoc(r, init, x, opts);
    }
  }

  /** The line part of the induction step of `PassMeaning`. */
  lemma PassLinesSnoc(r: LineRule, init: seq<string>, x: string, opts: map<string, string>)
    requires forall i :: 0 <= i < |init| ==> Pass(r, init, opts).lines[i] == Expected(r, init, opts, i)
    requires forall k :: k in Pass(r, init, opts).rest <==> k in opts && !KeyOccurs(r, init, k)
    requires forall k :: k in Pass(r, init, opts).rest ==> Pass(r, init, opts).rest[k] == opts[k]
    ensures forall i :: 0 <= i < |init| + 1 ==>
              Pass(r, init + [x], opts).lines[i] == Expected(r, init + [x], opts, i)
  {
    var lines, n := init + [x], |init|;
    assert lines[..n] == init;
    var prev := Pass(r, init, opts);
    forall i | 0 <= i < n
      ensures Pass(r, lines, opts).lines[i] == Expected(r, lines, opts, i)
    {
      ExpectedOnPrefix(r, init, x, opts, i);
    }
    assert forall j :: 0 <= j < n ==> lines[j] == init[j];
    match r.key(x) {
      case Some(k) =>
        if k in prev.rest {
          assert FirstWithKey(r, lines, n, k);
        } else if k in opts {
          var j :| 0 <= j < n && r.key(init[j]) == Some(k);
          assert !FirstWithKey(r, lines, n, k);
        }
      case None =>
    }
  }

  /** The part of the induction step of `PassMeaning` about the keys left. */
  lemma PassRestSnoc(r: LineRule, init: seq<string>, x: string, opts: map<string, string>)
    requires forall k :: k in Pass(r, init, opts).rest <==> k in opts && !KeyOccurs(r, init, k)
    requires forall k :: k in Pass(r, init, opts).rest ==> Pass(r, init, opts).rest[k] == opts[k]
    ensures forall k :: k in Pass(r, init + [x], opts).rest <==> k in opts && !KeyOccurs(r, init + [x], k)
    ensures forall k :: k in Pass(r, init + [x], opts).rest ==> Pass(r, init + [x], opts).rest[k] == opts[k]
  {
    var lines, n := init + [x], |init|;
    assert lines[..n] == init;
    assert forall j :: 0 <= j < n ==> lines[j] == init[j];
    match r.key(x) {
      case Some(k) =>
        assert lines[n] == x;
        assert KeyOccurs(r, lines, k);
        forall k' | k' != k
          ensures KeyOccurs(r, lines, k') <==> KeyOccurs(r, init, k')
        {
          if KeyOccurs(r, lines, k') {
            var j :| 0 <= j < |lines| && r.key(lines[j]) == Some(k');
            assert j < n;
          }
        }
      case None =>
        forall k' ensures KeyOccurs(r, lines, k') <==> KeyOccurs(r, init, k') {
          if KeyOccurs(r, lines, k') {
            var j :| 0 <= j < |lines| && r.key(lines[j]) == Some(k');
            assert j < n;
          }
        }
    }
  }

  /** Non-interference: a line whose key is not desired, or that the copy skips, is written
      back unchanged; commented lines included. */
  lemma LineKept(r: LineRule, lines: seq<string>, opts: map<string, string>, i: int)
    requires 0 <= i < |lines|
    requires r.key(lines[i]).None? || r.key(lines[i]).value !in opts
    ensures Pass(r, lines, opts).lines[i] == lines[i]
  {
    PassMeaning(r, lines, opts);
  }

  /** First match only: after a line with some key, a later line with the same key is left
      as it is. */
  lemma LaterMatchKept(r: LineRule, lines: seq<string>, opts: map<string, string>, i: int, j: int)
    requires 0 <= i < j < |lines|
    requires r.key(lines[i]).Some? && r.key(lines[j]) == r.key(lines[i])
    ensures Pass(r, lines, opts).lines[j] == lines[j]
  {
    PassMeaning(r, lines, opts);
  }

  /** The first line carrying a desired key is rewritten with that key's value, and the key
      is no longer left to append. */
  lemma FirstMatchRewritten(r: LineRule, lines: seq<string>, opts: map<string, string>, i: int, k: string)
    requires 0 <= i < |lines| && k in opts
    requires FirstWithKey(r, lines, i, k)
    ensures Pass(r, lines, opts).lines[i] == r.rewrite(lines[i], opts[k])
    ensures k !in Pass(r, lines, opts).rest
  {
    PassMeaning(r, lines, opts);
  }

  /** A duplicate-free list of a set's elements has the set's size. */
  lemma {:induction false} OrderingSize(order: seq<string>, keys: set<string>)
    requires IsOrdering(order, keys)
    ensures |order| == |keys|
  {
    if order != [] {
      var last := order[|order| - 1];
      var init := order[..|order| - 1];
      forall k ensures k in init <==> k in keys - {last} {
        if k in init {
          var i :| 0 <= i < |init| && init[i] == k;
          assert order[i] != order[|order| - 1];
        }
        if k in keys - {last} {
          assert k in order;
          var i :| 0 <= i < |order| && order[i] == k;
          assert init[i] == k;
        }
      }
      OrderingSize(init, keys - {last});
    } else {
      assert forall k :: k !in keys;
      assert keys == {};
    }
  }

  /** Append exactly once: a desired key that no line carries is appended once, with its
      value, wherever the map's iteration order puts it. */
  lemma AppendedOnce(r: LineRule, lines: seq<string>, opts: map<string, string>, order: seq<string>, k: string)
    requires IsOrdering(order, Pass(r, lines, opts).rest.Keys)
    requires k in opts && !KeyOccurs(r, lines, k)
    ensures exists j :: 0 <= j < |order| && order[j] == k
                        && Entries(r, order, Pass(r, lines, opts).rest)[j] == r.entry(k, opts[k])
                        && forall j' :: 0 <= j' < |order| && j' != j ==> order[j'] != k
  {
    PassMeaning(r, lines, opts);
    assert k in order;
    var j :| 0 <= j < |order| && order[j] == k;
    forall j' | 0 <= j' < |order| && j' != j ensures order[j'] != k {
      if j' < j { assert order[j'] != order[j]; } else { assert order[j] != order[j']; }
    }
  }

  // ---------------------------------------------------------------------------------
  // Applying the patcher to its own output.

  /** A line of `lines` that is rewritten keeps its key, and an appended line carries the
      key it was appended for. */
  ghost predicate KeepsKeys(r: LineRule, lines: seq<string>, opts: map<string, string>) {
    && (forall i :: 0 <= i < |lines| && r.key(lines[i]).Some? && r.key(lines[i]).value in opts ==>
          r.key(r.rewrite(lines[i], opts[r.key(lines[i]).value])) == r.key(lines[i]))
    && (forall k :: k in opts ==> r.key(r.entry(k, opts[k])) == Some(k))
  }

  /** What a second application needs of a line rule besides `KeepsKeys`: a rewritten line
      of `lines` and an appended line are fixed points of the rewrite. */
  ghost predicate Reapplicable(r: LineRule, lines: seq<string>, opts: map<string, string>) {
    && KeepsKeys(r, lines, opts)
    && (forall i :: 0 <= i < |lines| && r.key(lines[i]).Some? && r.key(lines[i]).value in opts ==>
          var v := opts[r.key(lines[i]).value];
          r.rewrite(r.rewrite(lines[i], v), v) == r.rewrite(lines[i], v))
    && (forall k :: k in opts ==> r.rewrite(r.entry(k, opts[k]), opts[k]) == r.entry(k, opts[k]))
  }

  /** Neither a rewritten line of `lines` nor an appended line holds a newline, provided the
      line it replaces held none. */
  ghost predicate KeepsLines(r: LineRule, lines: seq<string>, opts: map<string, string>) {
    && (forall i :: 0 <= i < |lines| && r.key(lines[i]).Some? && r.key(lines[i]).value in opts ==>
          '\n' !in lines[i] ==> '\n' !in r.rewrite(lines[i], opts[r.key(lines[i]).value]))
    && (forall k :: k in opts ==> '\n' !in r.entry(k, opts[k]))
  }

  /** The lines one application produces: the rewritten lines, then the appended ones. */
  ghost function Applied(r: LineRule, lines: seq<string>, opts: map<string, string>, order: seq<string>): seq<string>
    requires IsOrdering(order, Pass(r, lines, opts).rest.Keys)
  {
    var p := Pass(r, lines, opts);
    p.lines + Entries(r, order, p.rest)
  }

  /** A rewritten line keeps its key. */
  lemma PassKeepsKeys(r: LineRule, lines: seq<string>, opts: map<string, string>, i: int)
    requires KeepsKeys(r, lines, opts) && 0 <= i < |lines|
    ensures r.key(Pass(r, lines, opts).lines[i]) == r.key(lines[i])
  {
    PassMeaning(r, lines, opts);
  }

  /** The lines the rewrite loop produces carry the keys of the input lines. */
  lemma AppliedKeys(r: LineRule, lines: seq<string>, opts: map<string, string>, order: seq<string>)
    requires KeepsKeys(r, lines, opts)
    requires IsOrdering(order, Pass(r, lines, opts).rest.Keys)
    ensures |Applied(r, lines, opts, order)| == |lines| + |order|
    ensures forall i :: 0 <= i < |lines| ==> r.key(Applied(r, lines, opts, order)[i]) == r.key(lines[i])
  {
    var p := Pass(r, lines, opts);
    var m := Applied(r, lines, opts, order);
    var n := |lines|;
    assert m == p.lines + Entries(r, order, p.rest);
    forall i | 0 <= i < n ensures r.key(m[i]) == r.key(lines[i]) {
      assert m[i] == p.lines[i];
      PassKeepsKeys(r, lines, opts, i);
    }
  }

  /** The line appended `j`-th is the entry for the `j`-th key of the order, with its
      desired value. */
  lemma AppliedEntry(r: LineRule, lines: seq<string>, opts: map<string, string>, order: seq<string>, j: int)
    requires IsOrdering(order, Pass(r, lines, opts).rest.Keys)
    requires 0 <= j < |order|
    ensures order[j] in opts
    ensures |Applied(r, lines, opts, order)| == |lines| + |order|
    ensures Applied(r, lines, opts, order)[|lines| + j] == r.entry(order[j], opts[order[j]])
  {
    var p := Pass(r, lines, opts);
    assert order[j] in p.rest;
    RestValue(r, lines, opts, order[j]);
    assert Applied(r, lines, opts, order)[|lines| + j] == Entries(r, order, p.rest)[j];
  }

  /** A key left over keeps the value it was desired with. */
  lemma RestValue(r: LineRule, lines: seq<string>, opts: map<string, string>, k: string)
    requires k in Pass(r, lines, opts).rest
    ensures Pass(r, lines, opts).rest[k] == opts[k]
  {
    PassMeaning(r, lines, opts);
  }

  /** A line of the first application is a fixed point of the second. */
  lemma ReapplyLine(r: LineRule, lines: seq<string>, opts: map<string, string>, order: seq<string>, i: int)
    requires Reapplicable(r, lines, opts)
    requires IsOrdering(order, Pass(r, lines, opts).rest.Keys)
    requires 0 <= i < |Applied(r, lines, opts, order)|
    ensures Expected(r, Applied(r, lines, opts, order), opts, i) == Applied(r, lines, opts, order)[i]
  {
    var m := Applied(r, lines, opts, order);
    var n := |lines|;
    AppliedKeys(r, lines, opts, order);
    match r.key(m[i]) {
      case None =>
      case Some(k) =>
        if k in opts && FirstWithKey(r, m, i, k) {
          if i < n {
            PassMeaning(r, lines, opts);
            assert FirstWithKey(r, lines, i, k);
            assert m[i] == r.rewrite(lines[i], opts[k]);
          } else {
            AppliedEntry(r, lines, opts, order, i - n);
          }
        }
    }
  }

  /** Every desired key is carried by some line of the first application. */
  lemma AppliedCovers(r: LineRule, lines: seq<string>, opts: map<string, string>, order: seq<string>, k: string)
    requires KeepsKeys(r, lines, opts)
    requires IsOrdering(order, Pass(r, lines, opts).rest.Keys)
    requires k in opts
    ensures KeyOccurs(r, Applied(r, lines, opts, order), k)
  {
    var m := Applied(r, lines, opts, order);
    var n := |lines|;
    AppliedKeys(r, lines, opts, order);
    if KeyOccurs(r, lines, k) {
      var i :| 0 <= i < n && r.key(lines[i]) == Some(k);
      assert r.key(m[i]) == Some(k);
    } else {
      PassMeaning(r, lines, opts);
      assert k in order;
      var j :| 0 <= j < |order| && order[j] == k;
      AppliedEntry(r, lines, opts, order, j);
    }
  }

  /** A key some line carries has a first line carrying it. */
  lemma {:induction false} FirstOccurrence(r: LineRule, lines: seq<string>, k: string)
    requires KeyOccurs(r, lines, k)
    ensures exists i :: 0 <= i < |lines| && FirstWithKey(r, lines, i, k)
    decreases |lines|
  {
    if r.key(lines[0]) == Some(k) {
      assert FirstWithKey(r, lines, 0, k);
    } else {
      var t := lines[1..];
      var i0 :| 0 <= i0 < |lines| && r.key(lines[i0]) == Some(k);
      assert t[i0 - 1] == lines[i0];
      FirstOccurrence(r, t, k);
      var j :| 0 <= j < |t| && FirstWithKey(r, t, j, k);
      forall j' | 0 <= j' < j + 1 ensures r.key(lines[j']) != Some(k) {
        if j' > 0 { assert lines[j'] == t[j' - 1]; }
      }
      assert FirstWithKey(r, lines, j + 1, k);
    }
  }

  /** The first line of one application that carries a desired key is the line the loop
      rewrote for it or the line appended for it. */
  lemma FirstLineOfApplied(r: LineRule, lines: seq<string>, opts: map<string, string>, order: seq<string>, i: int, k: string)
    requires KeepsKeys(r, lines, opts)
    requires IsOrdering(order, Pass(r, lines, opts).rest.Keys)
    requires k in opts && 0 <= i < |Applied(r, lines, opts, order)|
    requires FirstWithKey(r, Applied(r, lines, opts, order), i, k)
    ensures i < |lines| ==> Applied(r, lines, opts, order)[i] == r.rewrite(lines[i], opts[k])
    ensures i >= |lines| ==> Applied(r, lines, opts, order)[i] == r.entry(k, opts[k])
  {
    var m := Applied(r, lines, opts, order);
    var n := |lines|;
    AppliedKeys(r, lines, opts, order);
    if i < n {
      PassMeaning(r, lines, opts);
      assert FirstWithKey(r, lines, i, k);
      assert m[i] == Pass(r, lines, opts).lines[i];
    } else {
      AppliedEntry(r, lines, opts, order, i - n);
    }
  }

  /** The second application of the rewrite loop to the lines of the first changes no line
      and leaves no key to append. */
  lemma Reapply(r: LineRule, lines: seq<string>, opts: map<string, string>, order: seq<string>)
    requires Reapplicable(r, lines, opts)
    requires IsOrdering(order, Pass(r, lines, opts).rest.Keys)
    ensures Pass(r, Applied(r, lines, opts, order), opts) == PassResult(Applied(r, lines, opts, order), map[])
  {
    var m := Applied(r, lines, opts, order);
    var q := Pass(r, m, opts);
    PassMeaning(r, m, opts);
    forall i | 0 <= i < |m| ensures q.lines[i] == m[i] {
      ReapplyLine(r, lines, opts, order, i);
    }
    forall k | k in opts ensures k !in q.rest {
      AppliedCovers(r, lines, opts, order, k);
    }
    assert q.rest == map[];
    assert q.lines == m;
  }

  /** Without newlines in the input lines, one application produces none. */
  lemma AppliedFree(r: LineRule, lines: seq<string>, opts: map<string, string>, order: seq<string>)
    requires KeepsLines(r, lines, opts)
    requires IsOrdering(order, Pass(r, lines, opts).rest.Keys)
    requires forall i :: 0 <= i < |lines| ==> '\n' !in lines[i]
    ensures forall i :: 0 <= i < |Applied(r, lines, opts, order)| ==> '\n' !in Applied(r, lines, opts, order)[i]
  {
    var m := Applied(r, lines, opts, order);
    var n := |lines|;
    PassMeaning(r, lines, opts);
    forall i | 0 <= i < |m| ensures '\n' !in m[i] {
      if i >= n {
        AppliedEntry(r, lines, opts, order, i - n);
      }
    }
  }

  // ---------------------------------------------------------------------------------
  // Whole texts: split on "\n", patched, joined with "\n".

  /** The text written back for `content` when the leftover keys are appended in `order`. */
  ghost function Output(r: LineRule, content: string, opts: map<string, string>, order: seq<string>): string
    requires IsOrdering(order, Pass(r, Split(content, "\n"), opts).rest.Keys)
  {
    Join(Applied(r, Split(content, "\n"), opts, order), "\n")
  }

  /** Splitting the written text on "\n" gives back the lines it was joined from. */
  lemma OutputSplits(r: LineRule, content: string, opts: map<string, string>, order: seq<string>)
    requires KeepsLines(r, Split(content, "\n"), opts)
    requires IsOrdering(order, Pass(r, Split(content, "\n"), opts).rest.Keys)
    ensures Split(Output(r, content, opts, order), "\n") == Applied(r, Split(content, "\n"), opts, order)
  {
    var lines := Split(content, "\n");
    SplitNoSep(content, '\n');
    AppliedFree(r, lines, opts, order);
    SplitJoin(Applied(r, lines, opts, order), '\n');
  }

  /** A second application to the written text changes no line, leaves no key over, and
      writes back the same text. */
  lemma SecondRunIsNoOp(r: LineRule, content: string, opts: map<string, string>, order: seq<string>)
    requires Reapplicable(r, Split(content, "\n"), opts) && KeepsLines(r, Split(content, "\n"), opts)
    requires IsOrdering(order, Pass(r, Split(content, "\n"), opts).rest.Keys)
    ensures Pass(r, Split(Output(r, content, opts, order), "\n"), opts)
            == PassResult(Split(Output(r, content, opts, order), "\n"), map[])
    ensures IsOrdering([], Pass(r, Split(Output(r, content, opts, order), "\n"), opts).rest.Keys)
    ensures Output(r, Output(r, content, opts, order), opts, []) == Output(r, content, opts, order)
  {
    var lines := Split(content, "\n");
    var once := Output(r, content, opts, order);
    var m := Applied(r, lines, opts, order);
    OutputSplits(r, content, opts, order);
    assert Split(once, "\n") == m;
    Reapply(r, lines, opts, order);
    AppliedNoLeftover(r, m, opts);
  }

  /** With no key left over, one application is the rewritten lines alone, whatever the
      order. */
  lemma AppliedNoLeftover(r: LineRule, lines: seq<string>, opts: map<string, string>)
    requires Pass(r, lines, opts).rest == map[]
    ensures IsOrdering([], Pass(r, lines, opts).rest.Keys)
    ensures Applied(r, lines, opts, []) == Pass(r, lines, opts).lines
  {
    assert Entries(r, [], map[]) == [];
  }

  /** The text written back has the lines of the input, one for one, plus one line per key
      left over, and no more keys are left than were desired. */
  lemma OutputLineCount(r: LineRule, content: string, opts: map<string, string>, order: seq<string>)
    requires KeepsLines(r, Split(content, "\n"), opts)
    requires IsOrdering(order, Pass(r, Split(content, "\n"), opts).rest.Keys)
    ensures |Split(Output(r, content, opts, order), "\n")| ==
            |Split(content, "\n")| + |Pass(r, Split(content, "\n"), opts).rest|
    ensures |Pass(r, Split(content, "\n"), opts).rest| <= |opts|
  {
    OutputSplits(r, content, opts, order);
    var rest := Pass(r, Split(content, "\n"), opts).rest;
    OrderingSize(order, rest.Keys);
    SubsetSize(rest.Keys, opts.Keys);
  }

  lemma {:induction false} SubsetSize(a: set<string>, b: set<string>)
    requires a <= b
    ensures |a| <= |b|
    decreases |b|
  {
    if b != {} {
      var x :| x in b;
      SubsetSize(a - {x}, b - {x});
    }
  }

  /** Every desired key is carried by some line of the text written back. */
  lemma OutputCoversKeys(r: LineRule, content: string, opts: map<string, string>, order: seq<string>, k: string)
    requires KeepsKeys(r, Split(content, "\n"), opts) && KeepsLines(r, Split(content, "\n"), opts)
    requires IsOrdering(order, Pass(r, Split(content, "\n"), opts).rest.Keys)
    requires k in opts
    ensures KeyOccurs(r, Split(Output(r, content, opts, order), "\n"), k)
  {
    OutputSplits(r, content, opts, order);
    AppliedCovers(r, Split(content, "\n"), opts, order, k);
  }
}
