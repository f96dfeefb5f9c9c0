/** The part of Go's `strings` package the hardening scripts rely on, over Dafny strings
    (sequences of Unicode scalar values, which is how Go's functions treat valid UTF-8). */
module GoStrings {

  /** `strings.HasPrefix(s, prefix)`. */
  predicate HasPrefix(s: string, prefix: string) {
    |prefix| <= |s| && s[..|prefix|] == prefix
  }

  /** `pat` occurs in `s` starting at position `i`. */
  predicate OccursAt(s: string, pat: string, i: int) {
    0 <= i && i + |pat| <= |s| && s[i..i + |pat|] == pat
  }

  /** `strings.Index(s, pat)`: the position of the first occurrence of `pat`, or -1. */
  function Index(s: string, pat: string): (r: int)
    ensures r == -1 || OccursAt(s, pat, r)
    ensures r >= 0 ==> forall i :: 0 <= i < r ==> !OccursAt(s, pat, i)
    ensures r == -1 ==> forall i :: !OccursAt(s, pat, i)
    decreases |s|
  {
    if HasPrefix(s, pat) then 0
    else if s == [] then -1
    else
      var r := Index(s[1..], pat);
      assert !OccursAt(s, pat, 0) by {
        if |pat| <= |s| { assert s[0..|pat|] == s[..|pat|]; }
      }
      assert forall i :: 1 <= i ==> (OccursAt(s, pat, i) <==> OccursAt(s[1..], pat, i - 1)) by {
        forall i | 1 <= i ensures OccursAt(s, pat, i) <==> OccursAt(s[1..], pat, i - 1) {
          if i + |pat| <= |s| {
            var a, b := s[1..][i - 1..i - 1 + |pat|], s[i..i + |pat|];
            forall j | 0 <= j < |pat| ensures a[j] == b[j] {
              assert a[j] == s[1..][i - 1 + j] == s[i + j];
            }
            assert a == b;
          }
        }
      }
      if r == -1 then -1 else r + 1
  }

  /** `strings.Contains(s, pat)`, which Go defines as `Index(s, pat) >= 0`. */
  predicate Contains(s: string, pat: string) {
    Index(s, pat) >= 0
  }

  /** The first occurrence is the only occurrence the characterisation of `Index` allows. */
  lemma IndexIs(s: string, pat: string, r: int)
    requires OccursAt(s, pat, r)
    requires forall i :: 0 <= i < r ==> !OccursAt(s, pat, i)
    ensures Index(s, pat) == r
  {
  }

  /** Two strings that agree up to the end of the first occurrence of `pat` in one of
      them have their first occurrence of `pat` at the same place. */
  lemma IndexAgrees(s: string, t: string, pat: string)
    requires Index(s, pat) >= 0
    requires Index(s, pat) + |pat| <= |t|
    requires s[..Index(s, pat) + |pat|] == t[..Index(s, pat) + |pat|]
    ensures Index(t, pat) == Index(s, pat)
  {
    var r := Index(s, pat);
    var p := s[..r + |pat|];
    OccursInPrefix(s, p, pat, r);
    OccursInPrefix(t, p, pat, r);
    forall i | 0 <= i < r
      ensures !OccursAt(t, pat, i)
    {
      OccursInPrefix(s, p, pat, i);
      OccursInPrefix(t, p, pat, i);
    }
    IndexIs(t, pat, r);
  }

  /** Whether `pat` occurs at `i` depends only on the text up to the end of that place. */
  lemma OccursInPrefix(s: string, p: string, pat: string, i: int)
    requires 0 <= i && i + |pat| <= |p| <= |s| && p == s[..|p|]
    ensures OccursAt(s, pat, i) <==> OccursAt(p, pat, i)
  {
    assert s[i..i + |pat|] == p[i..i + |pat|];
  }

  /** A one-character pattern occurs exactly where that character does. */
  lemma IndexOfChar(s: string, c: char)
    ensures Index(s, [c]) == -1 <==> c !in s
    ensures Index(s, [c]) >= 0 ==> s[Index(s, [c])] == c && c !in s[..Index(s, [c])]
  {
    var r := Index(s, [c]);
    if r >= 0 {
      assert s[r..r + 1] == [c];
      assert s[r] == c;
      forall i | 0 <= i < r ensures s[i] != c {
        assert !OccursAt(s, [c], i);
        assert s[i..i + 1] == [s[i]];
      }
    } else {
      forall i | 0 <= i < |s| ensures s[i] != c {
        assert !OccursAt(s, [c], i);
        assert s[i..i + 1] == [s[i]];
      }
    }
  }

  /** `strings.Split(s, sep)`. An empty separator splits after every character. */
  function Split(s: string, sep: string): (parts: seq<string>)
    ensures sep != [] ==> |parts| >= 1
    decreases |s|
  {
    if sep == [] then seq(|s|, i requires 0 <= i < |s| => [s[i]])
    else
      var i := Index(s, sep);
      if i < 0 then [s] else [s[..i]] + Split(s[i + |sep|..], sep)
  }

  /** `strings.Join(parts, sep)`. */
  function Join(parts: seq<string>, sep: string): string {
    if |parts| == 0 then ""
    else if |parts| == 1 then parts[0]
    else parts[0] + sep + Join(parts[1..], sep)
  }

  /** Joining a non-empty list is the first element, the separator and the rest joined. */
  lemma JoinCons(head: string, tail: seq<string>, sep: string)
    requires |tail| >= 1
    ensures Join([head] + tail, sep) == head + sep + Join(tail, sep)
  {
    assert ([head] + tail)[1..] == tail;
  }

  /** A join ends with the last element joined. */
  lemma {:induction false} JoinEnds(parts: seq<string>, sep: string)
    requires |parts| >= 1
    ensures |parts[|parts| - 1]| <= |Join(parts, sep)|
    ensures Join(parts, sep)[|Join(parts, sep)| - |parts[|parts| - 1]|..] == parts[|parts| - 1]
  {
    if |parts| > 1 {
      JoinEnds(parts[1..], sep);
    }
  }

  /** Joining two non-empty lists puts the separator between the two joins. */
  lemma {:induction false} JoinAppend(a: seq<string>, b: seq<string>, sep: string)
    requires |a| >= 1 && |b| >= 1
    ensures Join(a + b, sep) == Join(a, sep) + sep + Join(b, sep)
  {
    if |a| == 1 {
      JoinCons(a[0], b, sep);
      assert a + b == [a[0]] + b;
    } else {
      JoinAppend(a[1..], b, sep);
      assert a + b == [a[0]] + (a[1..] + b);
      JoinCons(a[0], a[1..] + b, sep);
    }
  }

  /** The first segment of a split is the text before the first separator, and there
      is a second segment exactly when the separator occurs. */
  lemma SplitHead(s: string, sep: string)
    requires sep != []
    ensures |Split(s, sep)| >= 2 <==> Contains(s, sep)
    ensures Split(s, sep)[0] == if Contains(s, sep) then s[..Index(s, sep)] else s
  {
  }

  /** Splitting and joining again with the same non-empty separator gives back the text. */
  lemma {:induction false} JoinSplit(s: string, sep: string)
    requires sep != []
    ensures Join(Split(s, sep), sep) == s
    decreases |s|
  {
    var i := Index(s, sep);
    if i >= 0 {
      var rest := s[i + |sep|..];
      JoinSplit(rest, sep);
      JoinCons(s[..i], Split(rest, sep), sep);
      assert s == s[..i] + s[i..i + |sep|] + rest;
    }
  }

  /** Joining lines that do not contain a one-character separator and splitting again on
      it gives back the lines. */
  lemma {:induction false} SplitJoin(parts: seq<string>, c: char)
    requires |parts| >= 1
    requires forall k :: 0 <= k < |parts| ==> c !in parts[k]
    ensures Split(Join(parts, [c]), [c]) == parts
  {
    if |parts| == 1 {
      IndexOfChar(parts[0], c);
    } else {
      var s := Join(parts, [c]);
      var rest := Join(parts[1..], [c]);
      assert s == parts[0] + [c] + rest;
      forall i | 0 <= i < |parts[0]| ensures !OccursAt(s, [c], i) {
        assert s[i] == parts[0][i];
        assert s[i..i + 1] == [s[i]];
      }
      assert s[|parts[0]|..|parts[0]| + 1] == [c];
      IndexIs(s, [c], |parts[0]|);
      assert s[..|parts[0]|] == parts[0];
      assert s[|parts[0]| + 1..] == rest;
      SplitJoin(parts[1..], c);
    }
  }

  /** A text containing the separator exactly once splits into the parts around it. */
  lemma SplitOnce(a: string, sep: string, b: string)
    requires sep != []
    requires Index(a + sep, sep) == |a|
    requires !Contains(b, sep)
    ensures Split(a + sep + b, sep) == [a, b]
  {
    var s := a + sep + b;
    IndexAgrees(a + sep, s, sep);
    assert s[|a| + |sep|..] == b;
    assert s[..|a|] == a;
  }

  /** A text whose first copy of character `c` follows `a` splits on `c` into `a` first. */
  lemma SplitAtChar(a: string, c: char, b: string)
    requires c !in a
    ensures Split(a + [c] + b, [c]) == [a] + Split(b, [c])
    ensures |Split(a + [c] + b, [c])| >= 2
    ensures Split(a + [c] + b, [c])[0] == a
  {
    var s := a + [c] + b;
    IndexOfChar(s, c);
    var r := Index(s, [c]);
    assert s[|a|] == c;
    assert s[..|a|] == a;
    assert s[|a| + 1..] == b;
  }

  /** When there is a second segment, the first is followed by the separator. */
  lemma SplitHeadPrefix(s: string, sep: string)
    requires sep != [] && |Split(s, sep)| >= 2
    ensures var h := Split(s, sep)[0];
            Index(s, sep) == |h| && |h| + |sep| <= |s| && s[..|h| + |sep|] == h + sep
  {
    SplitHead(s, sep);
    ThroughOccurrence(s, sep, Index(s, sep));
  }

  /** The text up to the end of an occurrence is the text before it and the pattern. */
  lemma ThroughOccurrence(s: string, pat: string, x: int)
    requires OccursAt(s, pat, x)
    ensures s[..x + |pat|] == s[..x] + pat
  {
    SliceJoin(s, x, x + |pat|);
  }

  lemma SliceJoin(s: string, i: nat, j: nat)
    requires i <= j <= |s|
    ensures s[..j] == s[..i] + s[i..j]
  {
  }

  /** The first segment of a split holds no character the text lacks. */
  lemma SplitHeadFree(s: string, sep: string, c: char)
    requires sep != [] && c !in s
    ensures c !in Split(s, sep)[0]
  {
    if Contains(s, sep) {
      assert forall i :: 0 <= i < Index(s, sep) ==> s[..Index(s, sep)][i] == s[i];
    }
  }

  /** The first segment of a split on one character does not contain that character. */
  lemma SplitHeadNoSep(s: string, c: char)
    ensures c !in Split(s, [c])[0]
  {
    IndexOfChar(s, c);
  }

  /** The elements of a split on one character do not contain it. */
  lemma {:induction false} SplitNoSep(s: string, c: char)
    ensures forall k :: 0 <= k < |Split(s, [c])| ==> c !in Split(s, [c])[k]
    decreases |s|
  {
    IndexOfChar(s, c);
    var i := Index(s, [c]);
    if i >= 0 {
      SplitNoSep(s[i + 1..], c);
    }
  }

  /** Splitting on one character gives one more part than the character occurs, and a
      text holding it exactly once splits into the text before it and the text after. */
  lemma {:induction false} SplitCount(s: string, c: char)
    ensures |Split(s, [c])| == multiset(s)[c] + 1
    ensures multiset(s)[c] == 1 ==>
              Split(s, [c]) == [Split(s, [c])[0], Split(s, [c])[1]]
              && s == Split(s, [c])[0] + [c] + Split(s, [c])[1]
    decreases |s|
  {
    IndexOfChar(s, c);
    var i := Index(s, [c]);
    if i >= 0 {
      var rest := s[i + 1..];
      assert s == s[..i] + [c] + rest;
      assert multiset(s) == multiset(s[..i]) + multiset([c]) + multiset(rest);
      SplitCount(rest, c);
      if multiset(s)[c] == 1 {
        assert c !in rest;
        IndexOfChar(rest, c);
      }
    } else {
      assert multiset(s)[c] == 0;
    }
  }

  /** A text without `c` splits on it into itself alone. */
  lemma SplitAbsent(s: string, c: char)
    requires c !in s
    ensures Split(s, [c]) == [s]
  {
    IndexOfChar(s, c);
  }

  /** The last part of a split on `c` with at least two parts is the text after the
      last `c`. */
  lemma SplitLast(s: string, c: char)
    requires |Split(s, [c])| >= 2
    ensures var parts := Split(s, [c]); var last := parts[|parts| - 1];
            c !in last && |last| < |s| && s[|s| - |last| - 1..] == [c] + last
  {
    var parts := Split(s, [c]);
    var init, last := parts[..|parts| - 1], parts[|parts| - 1];
    assert c !in last by {
      SplitNoSep(s, c);
    }
    var j := Join(init, [c]);
    assert s == j + ([c] + last) by {
      JoinSplit(s, [c]);
      assert init + [last] == parts;
      JoinAppend(init, [last], [c]);
      assert j + [c] + last == j + ([c] + last);
    }
    SliceSuffix(j, [c] + last);
  }

  /** The end of a concatenation is its second part. */
  lemma SliceSuffix(x: string, y: string)
    ensures (x + y)[|x|..] == y
  {
  }

  /** Joining a list whose last element has `x` appended gives the join with `x`
      appended. */
  lemma JoinLast(parts: seq<string>, sep: string, x: string)
    requires |parts| >= 1
    ensures Join(parts[..|parts| - 1] + [parts[|parts| - 1] + x], sep) == Join(parts, sep) + x
  {
    var n := |parts|;
    if n == 1 {
      assert parts[..0] + [parts[0] + x] == [parts[0] + x];
    } else {
      var init := parts[..n - 1];
      assert parts == init + [parts[n - 1]];
      JoinAppend(init, [parts[n - 1]], sep);
      JoinAppend(init, [parts[n - 1] + x], sep);
    }
  }

  /** `strings.Split(s, string(c))[0]`: the text of `s` before its first `c`, or all of
      `s` when there is none. */
  function FirstPart(s: string, c: char): (r: string)
    ensures c !in r && HasPrefix(s, r)
    ensures |r| == |s| || s[|r|] == c
  {
    SplitHead(s, [c]);
    SplitHeadNoSep(s, c);
    IndexOfChar(s, c);
    Split(s, [c])[0]
  }

  /** A newline at the end adds one empty element to the split. */
  lemma {:induction false} SplitTrailing(s: string, c: char)
    ensures Split(s + [c], [c]) == Split(s, [c]) + [""]
    decreases |s|
  {
    if c in s {
      var a, b := AroundFirst(s, c);
      var tail := Split(b, [c]);
      calc {
        Split(s + [c], [c]);
        { assert s + [c] == a + [c] + (b + [c]); }
        Split(a + [c] + (b + [c]), [c]);
        { SplitAtChar(a, c, b + [c]); }
        [a] + Split(b + [c], [c]);
        { SplitTrailing(b, c); }
        [a] + (tail + [""]);
        ([a] + tail) + [""];
        { SplitAtChar(a, c, b); }
        Split(s, [c]) + [""];
      }
    } else {
      SplitAbsent(s, c);
      SplitAtChar(s, c, []);
      assert s + [c] + [] == s + [c];
    }
  }

  /** A text containing `c` is the text before its first `c`, that `c`, and the rest. */
  lemma AroundFirst(s: string, c: char) returns (a: string, b: string)
    requires c in s
    ensures s == a + [c] + b && c !in a && |b| < |s|
  {
    IndexOfChar(s, c);
    var i := Index(s, [c]);
    a, b := s[..i], s[i + 1..];
    assert s == s[..i] + [s[i]] + s[i + 1..];
  }

  /** `strings.ReplaceAll(s, pat, "")`: every occurrence of `pat`, found left to right
      without overlap, is deleted. An empty pattern changes nothing. */
  function Remove(s: string, pat: string): (r: string)
    ensures |r| <= |s|
    decreases |s|
  {
    if pat == [] || s == [] then s
    else if HasPrefix(s, pat) then Remove(s[|pat|..], pat)
    else [s[0]] + Remove(s[1..], pat)
  }

  /** `strings.Replace(s, pat, "", 1)`: only the first occurrence of `pat` is deleted. */
  function RemoveFirst(s: string, pat: string): (r: string)
    ensures Index(s, pat) < 0 ==> r == s
    ensures Index(s, pat) >= 0 ==> |r| == |s| - |pat|
    ensures Index(s, pat) >= 0 ==> r == s[..Index(s, pat)] + s[Index(s, pat) + |pat|..]
    ensures Index(s, pat) >= 0 ==> s == r[..Index(s, pat)] + pat + r[Index(s, pat)..]
  {
    var i := Index(s, pat);
    if i < 0 then s
    else
      assert s == s[..i] + s[i..i + |pat|] + s[i + |pat|..];
      s[..i] + s[i + |pat|..]
  }

  /** Deleting one character removes every copy of it and keeps every other character
      in order. */
  lemma {:induction false} RemoveChar(s: string, c: char)
    ensures c !in Remove(s, [c])
    ensures c !in s ==> Remove(s, [c]) == s
    ensures forall d :: d != c ==> (d in s <==> d in Remove(s, [c]))
  {
    if s != [] {
      RemoveChar(s[1..], c);
      assert s == [s[0]] + s[1..];
    }
  }

  /** Deleting one character distributes over concatenation. */
  lemma {:induction false} RemoveCharConcat(a: string, b: string, c: char)
    ensures Remove(a + b, [c]) == Remove(a, [c]) + Remove(b, [c])
  {
    if a != [] {
      RemoveCharConcat(a[1..], b, c);
      assert (a + b)[1..] == a[1..] + b;
    } else {
      assert a + b == b;
    }
  }

  /** Deleting a character leaves a front without it untouched. */
  lemma RemoveAfterFree(a: string, b: string, c: char)
    requires c !in a
    ensures Remove(a + b, [c]) == a + Remove(b, [c])
  {
    RemoveCharConcat(a, b, c);
    RemoveChar(a, c);
  }

  /** A text without the pattern is left as it is. */
  lemma {:induction false} RemoveAbsent(s: string, pat: string)
    requires !Contains(s, pat)
    ensures Remove(s, pat) == s
    decreases |s|
  {
    if pat != [] && s != [] {
      assert !OccursAt(s, pat, 0);
      assert !HasPrefix(s, pat);
      forall i | 0 <= i ensures !OccursAt(s[1..], pat, i) {
        assert !OccursAt(s, pat, i + 1);
      }
      assert !Contains(s[1..], pat);
      RemoveAbsent(s[1..], pat);
    }
  }

  /** A pattern ending in `c` cannot occur in text without `c`, so deletion leaves such
      a tail alone. */
  lemma {:induction false} RemoveTail(s: string, t: string, pat: string, c: char)
    requires pat != [] && pat[|pat| - 1] == c && c !in t
    ensures Remove(s + t, pat) == Remove(s, pat) + t
    decreases |s|
  {
    if s == [] {
      assert s + t == t;
      AbsentLast(t, pat, c);
      RemoveAbsent(t, pat);
    } else if HasPrefix(s + t, pat) {
      PrefixBeforeTail(s, t, pat, c);
      assert HasPrefix(s, pat);
      assert (s + t)[|pat|..] == s[|pat|..] + t;
      RemoveTail(s[|pat|..], t, pat, c);
    } else {
      assert !HasPrefix(s, pat) by {
        if |pat| <= |s| {
          assert (s + t)[..|pat|] == s[..|pat|];
        }
      }
      assert (s + t)[1..] == s[1..] + t;
      RemoveTail(s[1..], t, pat, c);
    }
  }

  /** A pattern whose last character is missing from `t` does not occur in `t`. */
  lemma AbsentLast(t: string, pat: string, c: char)
    requires pat != [] && pat[|pat| - 1] == c && c !in t
    ensures !Contains(t, pat)
  {
    forall i | 0 <= i && i + |pat| <= |t|
      ensures !OccursAt(t, pat, i)
    {
      assert t[i..i + |pat|][|pat| - 1] == t[i + |pat| - 1];
      assert t[i + |pat| - 1] in t;
    }
  }

  /** A pattern ending in `c` that starts `s + t`, where `t` has no `c`, lies inside `s`. */
  lemma PrefixBeforeTail(s: string, t: string, pat: string, c: char)
    requires pat != [] && pat[|pat| - 1] == c && c !in t
    requires HasPrefix(s + t, pat)
    ensures |pat| <= |s| && (s + t)[..|pat|] == s[..|pat|]
  {
    var u := s + t;
    assert u[..|pat|][|pat| - 1] == u[|pat| - 1];
    assert forall j :: |s| <= j < |u| ==> u[j] == t[j - |s|];
  }

  /** An occurrence at the very start is deleted. */
  lemma RemoveLeading(pat: string, s: string)
    requires pat != []
    ensures Remove(pat + s, pat) == Remove(s, pat)
  {
    assert (pat + s)[|pat|..] == s;
  }

  /** Text that cannot start an occurrence is kept, character by character. */
  lemma {:induction false} RemoveKeeps(a: string, s: string, pat: string)
    requires pat != []
    requires pat[0] !in a
    ensures Remove(a + s, pat) == a + Remove(s, pat)
  {
    if a != [] {
      var t := a + s;
      assert t[0] == a[0];
      if |pat| <= |t| {
        assert t[..|pat|][0] == a[0];
      }
      assert !HasPrefix(t, pat);
      assert t[1..] == a[1..] + s;
      assert a == [a[0]] + a[1..];
      RemoveKeeps(a[1..], s, pat);
    } else {
      assert a + s == s;
    }
  }

  /** A pattern whose first character `s` lacks is first found right after `s`. */
  lemma FreeFront(s: string, pat: string)
    requires pat != [] && pat[0] !in s
    ensures Index(s + pat, pat) == |s|
  {
    var t := s + pat;
    assert t[|s|..] == pat;
    forall i | 0 <= i < |s| ensures !OccursAt(t, pat, i) {
      assert t[i] == s[i];
      if i + |pat| <= |t| {
        assert t[i..i + |pat|][0] == t[i];
      }
    }
    IndexIs(t, pat, |s|);
  }

  /** The empty text holds no non-empty pattern. */
  lemma EmptyAbsent(pat: string)
    requires pat != []
    ensures !Contains("", pat)
  {
  }

  /** A text shorter than a pattern does not hold it. */
  lemma ShorterAbsent(s: string, pat: string)
    requires |s| < |pat|
    ensures !Contains(s, pat)
  {
  }

  /** A pattern without `c` that occurs in `a + [c] + b` occurs in `a` or in `b`. */
  lemma ContainsAcross(a: string, c: char, b: string, pat: string)
    requires c !in pat
    ensures Contains(a + [c] + b, pat) ==> Contains(a, pat) || Contains(b, pat)
  {
    var s := a + [c] + b;
    if Contains(s, pat) {
      var i := Index(s, pat);
      assert forall j :: i <= j < i + |pat| ==> s[j] != c by {
        forall j | i <= j < i + |pat| ensures s[j] != c {
          assert s[i..i + |pat|][j - i] == s[j];
        }
      }
      assert s[|a|] == c;
      if i + |pat| <= |a| {
        assert s[i..i + |pat|] == a[i..i + |pat|];
        assert OccursAt(a, pat, i);
      } else {
        assert s[i..i + |pat|] == b[i - |a| - 1..i - |a| - 1 + |pat|];
        assert OccursAt(b, pat, i - |a| - 1);
      }
    }
  }

  /** Pieces without a pattern that lacks `c`, joined by `c`, do not hold it either. */
  lemma {:induction false} NotInJoin(parts: seq<string>, c: char, pat: string)
    requires c !in pat && pat != []
    requires forall k :: 0 <= k < |parts| ==> !Contains(parts[k], pat)
    ensures !Contains(Join(parts, [c]), pat)
  {
    if |parts| > 1 {
      NotInJoin(parts[1..], c, pat);
      ContainsAcross(parts[0], c, Join(parts[1..], [c]), pat);
    }
  }

  /** A pattern without `c` that the text before a `c` lacks is first found right after
      that `c`. */
  lemma IndexAfterSeparator(a: string, c: char, pat: string, b: string)
    requires c !in pat && !Contains(a, pat)
    ensures Index(a + [c] + pat + b, pat) == |a| + 1
  {
    var s := a + [c] + pat + b;
    assert s[|a| + 1..|a| + 1 + |pat|] == pat;
    forall i | 0 <= i < |a| + 1
      ensures !OccursAt(s, pat, i)
    {
      if i + |pat| <= |a| {
        assert s[i..i + |pat|] == a[i..i + |pat|];
        assert !OccursAt(a, pat, i);
      } else if i + |pat| <= |s| {
        assert s[i..i + |pat|][|a| - i] == s[|a|] == c;
      }
    }
    IndexIs(s, pat, |a| + 1);
  }

  /** `pat` is one line with its terminator `c`: `c` ends it and occurs nowhere else. */
  predicate LinePattern(pat: string, c: char) {
    pat != [] && pat[|pat| - 1] == c && c !in pat[..|pat| - 1]
  }

  /** `s` ends at a line boundary: it is empty or its last character is `c`. */
  predicate EndsAt(s: string, c: char) {
    s == [] || s[|s| - 1] == c
  }

  /** `strings.HasSuffix(s, suffix)`. */
  predicate HasSuffix(s: string, suffix: string) {
    |suffix| <= |s| && s[|s| - |suffix|..] == suffix
  }

  /** No occurrence of a line pattern straddles a line boundary, so deleting it from a
      text cut at a boundary deletes it from each part. */
  lemma {:induction false} RemoveAligned(a: string, t: string, pat: string, c: char)
    requires LinePattern(pat, c) && EndsAt(a, c)
    ensures Remove(a + t, pat) == Remove(a, pat) + Remove(t, pat)
    decreases |a|
  {
    if a == [] {
      assert a + t == t;
    } else if HasPrefix(a + t, pat) {
      assert (a + t)[|a| - 1] == c;
      assert forall k :: 0 <= k < |pat| - 1 ==> pat[k] != c by {
        forall k | 0 <= k < |pat| - 1 ensures pat[k] != c {
          assert pat[..|pat| - 1][k] == pat[k];
        }
      }
      assert forall k :: 0 <= k < |pat| ==> (a + t)[k] == pat[k] by {
        forall k | 0 <= k < |pat| ensures (a + t)[k] == pat[k] {
          assert (a + t)[..|pat|][k] == (a + t)[k];
        }
      }
      assert |pat| <= |a|;
      assert (a + t)[..|pat|] == a[..|pat|];
      assert (a + t)[|pat|..] == a[|pat|..] + t;
      RemoveAligned(a[|pat|..], t, pat, c);
    } else {
      assert !HasPrefix(a, pat) by {
        if |pat| <= |a| {
          assert (a + t)[..|pat|] == a[..|pat|];
        }
      }
      assert (a + t)[1..] == a[1..] + t;
      RemoveAligned(a[1..], t, pat, c);
    }
  }

  /** Every copy of a line goes: with both copies of `pat` starting at a line boundary,
      deleting `pat` deletes both and works on the text around them as on its own. */
  lemma RemoveCopies(x: string, y: string, z: string, pat: string, c: char)
    requires LinePattern(pat, c) && EndsAt(x, c) && EndsAt(y, c)
    ensures Remove(x + pat + y + pat + z, pat) == Remove(x, pat) + Remove(y, pat) + Remove(z, pat)
  {
    assert x + pat + y + pat + z == x + (pat + (y + (pat + z)));
    RemoveAligned(x, pat + (y + (pat + z)), pat, c);
    RemoveLeading(pat, y + (pat + z));
    RemoveAligned(y, pat + z, pat, c);
    RemoveLeading(pat, z);
  }

  /** The lines `ls`, each followed by its terminator `c`. */
  function Terminate(ls: seq<string>, c: char): string
    decreases |ls|
  {
    if ls == [] then "" else ls[0] + [c] + Terminate(ls[1..], c)
  }

  /** The lines of `ls` other than `line`, in order. */
  function Without(ls: seq<string>, line: string): (r: seq<string>)
    ensures forall k :: 0 <= k < |r| ==> r[k] != line
    ensures forall l :: l in r <==> l in ls && l != line
    decreases |ls|
  {
    if ls == [] then []
    else (if ls[0] == line then [] else [ls[0]]) + Without(ls[1..], line)
  }

  /** One terminated line loses itself to its own pattern and is kept by the pattern of
      any line it does not end with. */
  lemma RemoveOneLine(l: string, line: string, c: char)
    requires c !in l && c !in line
    requires l != line ==> !HasSuffix(l, line)
    ensures Remove(l + [c], line + [c]) == if l == line then "" else l + [c]
  {
    var pat := line + [c];
    if l == line {
      RemoveLeading(pat, "");
      assert pat + "" == pat;
    } else {
      SuffixIfOccurs(l, line, c);
      RemoveAbsent(l + [c], pat);
    }
  }

  /** The pattern of a line occurs in another terminated line only at its end. */
  lemma SuffixIfOccurs(l: string, line: string, c: char)
    requires c !in l && c !in line
    ensures Contains(l + [c], line + [c]) ==> HasSuffix(l, line)
  {
    var s, pat := l + [c], line + [c];
    if Contains(s, pat) {
      var i := Index(s, pat);
      assert s[i..i + |pat|][|pat| - 1] == s[i + |pat| - 1];
      assert forall k :: 0 <= k < |l| ==> s[k] == l[k];
      assert i + |pat| - 1 == |l|;
      forall j | 0 <= j < |line|
        ensures l[|l| - |line|..][j] == line[j]
      {
        assert s[i..i + |pat|][j] == pat[j];
      }
    }
  }

  /** A text of whole lines loses exactly the copies of `line`, however many there are,
      as long as no other line ends with `line`; every other line is kept in order. */
  lemma {:induction false} RemoveWholeLines(ls: seq<string>, line: string, c: char)
    requires c !in line
    requires forall k :: 0 <= k < |ls| ==> c !in ls[k]
    requires forall k :: 0 <= k < |ls| ==> ls[k] != line ==> !HasSuffix(ls[k], line)
    ensures Remove(Terminate(ls, c), line + [c]) == Terminate(Without(ls, line), c)
    decreases |ls|
  {
    if ls != [] {
      var pat := line + [c];
      assert pat[..|pat| - 1] == line;
      var head := ls[0] + [c];
      assert head[|head| - 1] == c;
      RemoveAligned(head, Terminate(ls[1..], c), pat, c);
      RemoveOneLine(ls[0], line, c);
      RemoveWholeLines(ls[1..], line, c);
      var rest := Without(ls[1..], line);
      if ls[0] == line {
        assert Without(ls, line) == rest;
      } else {
        assert Without(ls, line) == [ls[0]] + rest;
        TerminateOne(ls[0], rest, c);
      }
    }
  }

  lemma TerminateOne(l: string, ls: seq<string>, c: char)
    ensures Terminate([l] + ls, c) == l + [c] + Terminate(ls, c)
  {
    assert ([l] + ls)[1..] == ls;
  }

  /** The characters `unicode.IsSpace` accepts: the ASCII white space, NEL, NBSP and the
      other characters with the Unicode White_Space property. */
  predicate IsSpace(c: char) {
    c == ' ' || c == '\t' || c == '\n' || c == '\U{000B}' || c == '\U{000C}' || c == '\r'
    || c == '\U{0085}' || c == '\U{00A0}' || c == '\U{1680}'
    || ('\U{2000}' <= c <= '\U{200A}')
    || c == '\U{2028}' || c == '\U{2029}' || c == '\U{202F}' || c == '\U{205F}' || c == '\U{3000}'
  }

  /** Leading white space removed. */
  function TrimLeft(s: string): string
    decreases |s|
  {
    if |s| > 0 && IsSpace(s[0]) then TrimLeft(s[1..]) else s
  }

  /** Trailing white space removed. */
  function TrimRight(s: string): string
    decreases |s|
  {
    if |s| > 0 && IsSpace(s[|s| - 1]) then TrimRight(s[..|s| - 1]) else s
  }

  /** A text with no white space at either end. */
  predicate Trimmed(s: string) {
    s == [] || (!IsSpace(s[0]) && !IsSpace(s[|s| - 1]))
  }

  /** `strings.TrimSpace(s)`. */
  function TrimSpace(s: string): string {
    TrimRight(TrimLeft(s))
  }

  lemma {:induction false} TrimLeftShape(s: string)
    ensures |TrimLeft(s)| <= |s| && TrimLeft(s) == s[|s| - |TrimLeft(s)|..]
    ensures TrimLeft(s) == [] || !IsSpace(TrimLeft(s)[0])
    ensures forall i :: 0 <= i < |s| - |TrimLeft(s)| ==> IsSpace(s[i])
    decreases |s|
  {
    if |s| > 0 && IsSpace(s[0]) {
      TrimLeftShape(s[1..]);
    }
  }

  lemma {:induction false} TrimRightShape(s: string)
    ensures |TrimRight(s)| <= |s| && TrimRight(s) == s[..|TrimRight(s)|]
    ensures TrimRight(s) == [] || !IsSpace(TrimRight(s)[|TrimRight(s)| - 1])
    ensures forall i :: |TrimRight(s)| <= i < |s| ==> IsSpace(s[i])
    decreases |s|
  {
    if |s| > 0 && IsSpace(s[|s| - 1]) {
      TrimRightShape(s[..|s| - 1]);
    }
  }

  /** Trimming keeps a text with no white space at its ends, and only such a text. */
  lemma TrimSpaceFixed(s: string)
    ensures TrimSpace(s) == s <==> Trimmed(s)
  {
    TrimLeftShape(s);
    TrimRightShape(TrimLeft(s));
    if Trimmed(s) && s != [] {
      assert TrimLeft(s) == s;
      assert TrimRight(s) == s;
    }
  }

  /** The result of trimming has no white space at its ends. */
  lemma TrimSpaceTrimmed(s: string)
    ensures Trimmed(TrimSpace(s))
  {
    var l := TrimLeft(s);
    TrimLeftShape(s);
    TrimRightShape(l);
    var r := TrimRight(l);
    if r != [] {
      assert r[0] == l[0];
    }
  }

  /** White space added at the end does not change what trimming gives. */
  lemma {:induction false} TrimSpaceAppendSpace(s: string, c: char)
    requires IsSpace(c)
    ensures TrimSpace(s + [c]) == TrimSpace(s)
    decreases |s|
  {
    if |s| > 0 && IsSpace(s[0]) {
      assert (s + [c])[1..] == s[1..] + [c];
      TrimSpaceAppendSpace(s[1..], c);
    } else if |s| == 0 {
      assert TrimLeft(s + [c]) == TrimLeft([]) == [];
    } else {
      assert TrimLeft(s + [c]) == s + [c];
      assert (s + [c])[..|s + [c]| - 1] == s;
    }
  }

  /** Length of the run of non-space characters at the start of `s`. */
  function WordLength(s: string): (n: nat)
    ensures n <= |s|
    ensures forall i :: 0 <= i < n ==> !IsSpace(s[i])
    ensures n < |s| ==> IsSpace(s[n])
    decreases |s|
  {
    if s == [] || IsSpace(s[0]) then 0 else 1 + WordLength(s[1..])
  }

  /** `strings.Fields(s)`: the maximal runs of non-space characters, in order. */
  function Fields(s: string): (fields: seq<string>)
    ensures forall k :: 0 <= k < |fields| ==> IsWord(fields[k])
    decreases |s|
  {
    if s == [] then []
    else if IsSpace(s[0]) then Fields(s[1..])
    else
      var n := WordLength(s);
      [s[..n]] + Fields(s[n..])
  }

  /** A field: non-empty text with no white space. */
  predicate IsWord(w: string) {
    w != [] && forall i :: 0 <= i < |w| ==> !IsSpace(w[i])
  }

  /** Words with no white space, joined by single spaces, fall apart into those words. */
  lemma {:induction false} FieldsJoin(words: seq<string>)
    requires forall k :: 0 <= k < |words| ==> IsWord(words[k])
    ensures Fields(Join(words, " ")) == words
  {
    if |words| == 1 {
      FieldsOfWord(words[0], "");
      assert words[0] + "" == words[0];
    } else if |words| > 1 {
      var w, tail := words[0], words[1..];
      assert IsWord(w);
      assert forall k :: 0 <= k < |tail| ==> tail[k] == words[k + 1];
      var rest := Join(tail, " ");
      calc {
        Fields(Join(words, " "));
        { assert words == [w] + tail; JoinCons(w, tail, " "); assert w + " " + rest == w + (" " + rest); }
        Fields(w + (" " + rest));
        { FieldsOfWord(w, " " + rest); }
        [w] + Fields(" " + rest);
        { FieldsAfterSpace(rest); }
        [w] + Fields(rest);
        { FieldsJoin(tail); }
        [w] + tail;
      }
    }
  }

  /** A leading space starts no field. */
  lemma FieldsAfterSpace(s: string)
    ensures Fields(" " + s) == Fields(s)
  {
    assert (" " + s)[1..] == s;
  }

  /** A word followed by nothing or by white space is the first field. */
  lemma FieldsOfWord(w: string, rest: string)
    requires w != []
    requires forall i :: 0 <= i < |w| ==> !IsSpace(w[i])
    requires rest == [] || IsSpace(rest[0])
    ensures Fields(w + rest) == [w] + Fields(rest)
  {
    WordLengthOf(w, rest);
    assert (w + rest)[..|w|] == w;
    assert (w + rest)[|w|..] == rest;
  }

  lemma {:induction false} WordLengthOf(w: string, rest: string)
    requires forall i :: 0 <= i < |w| ==> !IsSpace(w[i])
    requires rest == [] || IsSpace(rest[0])
    ensures WordLength(w + rest) == |w|
    decreases |w|
  {
    if w != [] {
      assert (w + rest)[1..] == w[1..] + rest;
      WordLengthOf(w[1..], rest);
    } else {
      assert w + rest == rest;
    }
  }

  /** `strings.ToLower`, for the ASCII letters (other characters are kept). */
  function ToLower(s: string): (r: string)
    ensures |r| == |s|
    ensures forall i :: 0 <= i < |s| ==> r[i] == if 'A' <= s[i] <= 'Z' then (s[i] as int + 32) as char else s[i]
  {
    seq(|s|, i requires 0 <= i < |s| => if 'A' <= s[i] <= 'Z' then (s[i] as int + 32) as char else s[i])
  }
}
