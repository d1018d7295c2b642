/**
 * The handful of Python `str` operations the feed clients rely on:
 * `sub in s`, `s.split(sep)` with its pieces `[0]`, `[1]` and `[-1]`, and the open
 * slice `s[k:]`. `Join` and `CountChar` are not used by the clients; they
 * state the split round trip and the number of pieces a split yields.
 * Strings are sequences of characters; separators are never empty
 * (Python rejects `s.split("")`).
 */
module Strings {
  import opened Wrappers

  /** `sub` occurs in `s` starting at index `i`. */
  predicate OccursAt(s: string, sub: string, i: nat) {
    i + |sub| <= |s| && s[i..i + |sub|] == sub
  }

  /** Shifting the start by one character moves an occurrence into the tail. */
  lemma OccursAtTail(s: string, sub: string)
    requires |s| > 0
    ensures forall j: nat :: OccursAt(s[1..], sub, j) <==> OccursAt(s, sub, j + 1)
    ensures forall j: nat :: 0 < j ==> (OccursAt(s, sub, j) <==> OccursAt(s[1..], sub, j - 1))
  {
  }

  /** An occurrence inside a prefix is an occurrence in the whole string. */
  lemma OccursAtPrefix(s: string, k: nat, sub: string, j: nat)
    requires k <= |s| && OccursAt(s[..k], sub, j)
    ensures OccursAt(s, sub, j) && j + |sub| <= k
  {
    assert s[..k][j..j + |sub|] == s[j..j + |sub|];
  }

  /** Index of the first occurrence of `sub` in `s`: Python's `s.find(sub)`, with None for -1. */
  function Find(s: string, sub: string): (r: Option<nat>)
    ensures r.Some? ==> r.value + |sub| <= |s|
    decreases |s|
  {
    if |s| < |sub| then None
    else if s[..|sub|] == sub then Some(0)
    else
      match Find(s[1..], sub)
      case None => None
      case Some(k) => Some(k + 1)
  }

  /**
   * `Find` returns the first occurrence: `sub` occurs at the index found
   * and nowhere before it, and `None` means it occurs nowhere.
   */
  lemma {:induction false} FindFirst(s: string, sub: string)
    ensures var r := Find(s, sub);
      (r.Some? ==> OccursAt(s, sub, r.value) && forall j: nat :: j < r.value ==> !OccursAt(s, sub, j)) &&
      (r.None? ==> forall j: nat :: !OccursAt(s, sub, j))
    decreases |s|
  {
    if |s| >= |sub| && s[..|sub|] != sub {
      FindFirst(s[1..], sub);
      OccursAtTail(s, sub);
    }
  }

  /** Python's `sub in s`. */
  predicate Contains(s: string, sub: string) {
    Find(s, sub).Some?
  }

  /** For a one-character separator, `[c] in s` is plain membership. */
  lemma ContainsChar(s: string, c: char)
    ensures Contains(s, [c]) <==> c in s
  {
    FindFirst(s, [c]);
    if c in s {
      var j :| 0 <= j < |s| && s[j] == c;
      assert s[j..j + 1] == [c];
      assert OccursAt(s, [c], j);
    }
    if Contains(s, [c]) {
      var j := Find(s, [c]).value;
      assert s[j..j + 1][0] == s[j];
    }
  }

  /** The text before the first occurrence of `sep` holds no occurrence of `sep`. */
  lemma BeforeFirstIsFree(s: string, sep: string, i: nat)
    requires |sep| > 0 && Find(s, sep) == Some(i)
    ensures !Contains(s[..i], sep)
  {
    FindFirst(s, sep);
    if Contains(s[..i], sep) {
      FindFirst(s[..i], sep);
      var j := Find(s[..i], sep).value;
      OccursAtPrefix(s, i, sep, j);
      assert false;
    }
  }

  /** Python's `sep.join(parts)`. */
  function Join(parts: seq<string>, sep: string): string
  {
    if |parts| == 0 then ""
    else if |parts| == 1 then parts[0]
    else parts[0] + sep + Join(parts[1..], sep)
  }

  /**
   * Python's `s.split(sep)`: the pieces between non-overlapping occurrences
   * of `sep`, scanned left to right, empty pieces included.
   */
  function Split(s: string, sep: string): (parts: seq<string>)
    requires |sep| > 0
    ensures |parts| >= 1
    decreases |s|
  {
    match Find(s, sep)
    case None => [s]
    case Some(i) => [s[..i]] + Split(s[i + |sep|..], sep)
  }

  /**
   * Splitting loses nothing and keeps no separator: joining the pieces with
   * `sep` gives back `s`, no piece contains `sep`, and there is more than
   * one piece exactly when `s` contains `sep`.
   */
  lemma {:induction false} SplitJoinsBack(s: string, sep: string)
    requires |sep| > 0
    ensures Join(Split(s, sep), sep) == s
    ensures forall i :: 0 <= i < |Split(s, sep)| ==> !Contains(Split(s, sep)[i], sep)
    ensures |Split(s, sep)| == 1 <==> !Contains(s, sep)
    decreases |s|
  {
    match Find(s, sep)
    case None =>
    case Some(i) =>
      var rest := Split(s[i + |sep|..], sep);
      SplitCons(s, sep, i);
      SplitJoinsBack(s[i + |sep|..], sep);
      FindFirst(s, sep);
      BeforeFirstIsFree(s, sep, i);
      SplitStep(s, sep, i, rest);
  }

  /** Joining a list of at least two parts: the head, a separator, then the rest joined. */
  lemma JoinCons(x: string, rest: seq<string>, sep: string)
    requires |rest| >= 1
    ensures Join([x] + rest, sep) == x + sep + Join(rest, sep)
  {
    assert ([x] + rest)[1..] == rest;
  }

  /** A string is the text before an occurrence, the occurrence, and the text after it. */
  lemma AroundOccurrence(s: string, sub: string, i: nat)
    requires OccursAt(s, sub, i)
    ensures s == s[..i] + sub + s[i + |sub|..]
  {
    assert s == s[..i] + s[i..i + |sub|] + s[i + |sub|..];
  }

  /** One step of `Split`: the piece before the first separator, then the pieces after it. */
  lemma SplitStep(s: string, sep: string, i: nat, rest: seq<string>)
    requires OccursAt(s, sep, i) && !Contains(s[..i], sep)
    requires |rest| >= 1 && Join(rest, sep) == s[i + |sep|..]
    requires forall k :: 0 <= k < |rest| ==> !Contains(rest[k], sep)
    ensures Join([s[..i]] + rest, sep) == s
    ensures forall k :: 0 <= k < |[s[..i]] + rest| ==> !Contains(([s[..i]] + rest)[k], sep)
  {
    var x := s[..i];
    var parts := [x] + rest;
    JoinCons(x, rest, sep);
    AroundOccurrence(s, sep, i);
    forall k | 0 <= k < |parts|
      ensures !Contains(parts[k], sep)
    {
      if k > 0 {
        assert parts[k] == rest[k - 1];
      }
    }
  }

  /**
   * The first piece of a split is a prefix free of `sep` that is either all
   * of `s` or followed in `s` by `sep`.
   */
  lemma SplitFirstPiece(s: string, sep: string)
    requires |sep| > 0
    ensures var p := Split(s, sep)[0];
      p <= s && !Contains(p, sep) && (p == s || OccursAt(s, sep, |p|))
  {
    match Find(s, sep)
    case None =>
    case Some(i) =>
      SplitCons(s, sep, i);
      FindFirst(s, sep);
      BeforeFirstIsFree(s, sep, i);
  }

  /** When `sep` occurs, splitting yields the text before its first occurrence, then the pieces of what follows. */
  lemma SplitCons(s: string, sep: string, i: nat)
    requires |sep| > 0 && Find(s, sep) == Some(i)
    ensures Split(s, sep) == [s[..i]] + Split(s[i + |sep|..], sep)
  {
  }

  /** When `sep` occurs, the second piece is the first piece of what follows its first occurrence. */
  lemma SplitSecondPiece(s: string, sep: string)
    requires |sep| > 0 && Contains(s, sep)
    ensures |Split(s, sep)| >= 2
    ensures Split(s, sep)[1] == Split(s[Find(s, sep).value + |sep|..], sep)[0]
  {
    var i := Find(s, sep).value;
    var rest := Split(s[i + |sep|..], sep);
    SplitCons(s, sep, i);
    assert ([s[..i]] + rest)[1] == rest[0];
  }

  /** A text free of `sub` has no prefix containing `sub`. */
  lemma FreePrefix(t: string, p: string, sub: string)
    requires t <= p && !Contains(p, sub)
    ensures !Contains(t, sub)
  {
    if Contains(t, sub) {
      FindFirst(t, sub);
      FindFirst(p, sub);
      var j := Find(t, sub).value;
      assert p[..|t|] == t;
      OccursAtPrefix(p, |t|, sub, j);
    }
  }

  /** `s.split(c)[0]` for a one-character separator: the text before the first `c`. */
  function TakeUntil(s: string, c: char): string
    decreases |s|
  {
    if |s| == 0 || s[0] == c then "" else [s[0]] + TakeUntil(s[1..], c)
  }

  /**
   * The text before the first `c` is the longest prefix free of `c`: all of
   * `s` when `c` does not occur, and otherwise followed in `s` by a `c`.
   */
  lemma {:induction false} TakeUntilIsPrefix(s: string, c: char)
    ensures var r := TakeUntil(s, c);
      r <= s && c !in r &&
      (r == s <==> c !in s) &&
      (r != s ==> s[|r|] == c)
    decreases |s|
  {
    if |s| > 0 && s[0] != c {
      TakeUntilIsPrefix(s[1..], c);
      assert s == [s[0]] + s[1..];
    }
  }

  /** Text free of `c`, then `c`: `TakeUntil` stops exactly there. */
  lemma {:induction false} TakeUntilStops(a: string, c: char, b: string)
    requires c !in a
    ensures TakeUntil(a + [c] + b, c) == a
    decreases |a|
  {
    if |a| > 0 {
      assert (a + [c] + b)[1..] == a[1..] + [c] + b;
      TakeUntilStops(a[1..], c, b);
      assert [a[0]] + a[1..] == a;
    }
  }

  /** `TakeUntil` is the first piece `Split` produces. */
  lemma TakeUntilIsFirstPiece(s: string, c: char)
    ensures TakeUntil(s, c) == Split(s, [c])[0]
  {
    TakeUntilIsPrefix(s, c);
    ContainsChar(s, c);
    var r := TakeUntil(s, c);
    match Find(s, [c])
    case None =>
    case Some(i) =>
      SplitCons(s, [c], i);
      FindFirst(s, [c]);
      assert s[i..i + 1][0] == s[i];
      BeforeFirstIsFree(s, [c], i);
      ContainsChar(s[..i], c);
  }

  /** Where the text after the last `c` in `s` starts: just past the last `c`, or 0 when there is none. */
  function LastStart(s: string, c: char): (k: nat)
    ensures k <= |s|
    decreases |s|
  {
    if |s| == 0 || s[|s| - 1] == c then |s| else LastStart(s[..|s| - 1], c)
  }

  /** `s.split(c)[-1]` for a one-character separator: the text after the last `c`. */
  function AfterLast(s: string, c: char): string {
    s[LastStart(s, c)..]
  }

  /**
   * No `c` occurs from `LastStart` on; a `c` sits just before it unless it
   * is 0, and it is 0 only when `c` does not occur at all.
   */
  lemma {:induction false} LastStartBounds(s: string, c: char)
    ensures var k := LastStart(s, c);
      c !in s[k..] && (k > 0 ==> s[k - 1] == c) && (c in s ==> k > 0)
    decreases |s|
  {
    var n := |s|;
    if n > 0 && s[n - 1] != c {
      var front := s[..n - 1];
      LastStartBounds(front, c);
      var k := LastStart(front, c);
      assert s[k..] == front[k..] + [s[n - 1]];
      if c in s {
        var j :| 0 <= j < n && s[j] == c;
        assert front[j] == c;
      }
      if k > 0 {
        assert front[k - 1] == s[k - 1];
      }
    }
  }

  /**
   * The text after the last `c` starts at the one position `j` that follows
   * a `c` (or is 0) and has no `c` from there on.
   */
  lemma AfterLastUnique(s: string, c: char, j: nat)
    requires j <= |s| && c !in s[j..]
    requires j == 0 || s[j - 1] == c
    ensures AfterLast(s, c) == s[j..]
  {
    LastStartBounds(s, c);
  }

  /** Everything up to a `c` can be dropped without changing the text after the last `c`. */
  lemma AfterLastAfterDelimiter(s: string, c: char, i: nat)
    requires i < |s| && s[i] == c
    ensures AfterLast(s, c) == AfterLast(s[i + 1..], c)
  {
    var y := s[i + 1..];
    LastStartBounds(y, c);
    var k := LastStart(y, c);
    assert s[i + 1 + k..] == y[k..];
    if k > 0 {
      assert y[k - 1] == s[i + k];
    }
    AfterLastUnique(s, c, i + 1 + k);
  }

  /** `AfterLast` is the last piece `Split` produces. */
  lemma {:induction false} AfterLastIsLastPiece(s: string, c: char)
    ensures AfterLast(s, c) == Split(s, [c])[|Split(s, [c])| - 1]
    decreases |s|
  {
    match Find(s, [c])
    case None =>
      ContainsChar(s, c);
      AfterLastUnique(s, c, 0);
    case Some(i) =>
      SplitCons(s, [c], i);
      AfterLastIsLastPiece(s[i + 1..], c);
      FindFirst(s, [c]);
      assert s[i..i + 1][0] == s[i];
      AfterLastAfterDelimiter(s, c, i);
  }

  /** Python's open slice `s[k:]`: empty once `k` passes the end. */
  function SliceFrom(s: string, k: nat): (r: string)
    ensures k <= |s| ==> s == s[..k] + r
    ensures k >= |s| ==> r == ""
  {
    if k <= |s| then s[k..] else ""
  }

  /** Number of occurrences of the character `c` in `s` (Python's `s.count(c)`). */
  function CountChar(s: string, c: char): nat
  {
    if |s| == 0 then 0 else (if s[0] == c then 1 else 0) + CountChar(s[1..], c)
  }

  lemma {:induction false} CountCharAppend(a: string, b: string, c: char)
    ensures CountChar(a + b, c) == CountChar(a, c) + CountChar(b, c)
  {
    if |a| > 0 {
      assert (a + b)[1..] == a[1..] + b;
      CountCharAppend(a[1..], b, c);
    } else {
      assert a + b == b;
    }
  }

  lemma {:induction false} CountCharAbsent(s: string, c: char)
    requires c !in s
    ensures CountChar(s, c) == 0
  {
    if |s| > 0 {
      assert c !in s[1..];
      CountCharAbsent(s[1..], c);
    }
  }

  /** Splitting on a character yields one more piece than there are copies of it. */
  lemma {:induction false} SplitCount(s: string, c: char)
    ensures |Split(s, [c])| == CountChar(s, c) + 1
    decreases |s|
  {
    SplitJoinsBack(s, [c]);
    ContainsChar(s, c);
    match Find(s, [c])
    case None =>
      CountCharAbsent(s, c);
    case Some(i) =>
      SplitCons(s, [c], i);
      FindFirst(s, [c]);
      BeforeFirstIsFree(s, [c], i);
      ContainsChar(s[..i], c);
      CountCharAbsent(s[..i], c);
      var rest := s[i + 1..];
      assert s == s[..i] + ([c] + rest);
      CountCharAppend(s[..i], [c] + rest, c);
      CountCharAppend([c], rest, c);
      SplitCount(rest, c);
  }

  /**
   * Frames free of the delimiter `c`, joined by `c` and split on `c` again,
   * come back exactly: the same number of frames, each unchanged.
   */
  lemma {:induction false} SplitJoin(frames: seq<string>, c: char)
    requires |frames| >= 1
    requires forall i :: 0 <= i < |frames| ==> c !in frames[i]
    ensures Split(Join(frames, [c]), [c]) == frames
  {
    var f := frames[0];
    ContainsChar(f, c);
    if |frames| == 1 {
    } else {
      var rest := Join(frames[1..], [c]);
      var s := f + [c] + rest;
      assert OccursAt(s, [c], |f|) by {
        assert s[|f|..|f| + 1] == [c];
      }
      FindFirst(s, [c]);
      var i := Find(s, [c]).value;
      assert i == |f|;
      SplitCons(s, [c], i);
      assert s[..i] == f;
      assert s[i + 1..] == rest;
      SplitJoin(frames[1..], c);
      assert frames == [f] + frames[1..];
    }
  }
}
