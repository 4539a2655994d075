/**
 * String helpers from Go's `strings` and `bytes` packages that the reader
 * relies on: first occurrence of a character, splitting on a one-character
 * separator, trimming a cut set, suffix tests and newline-terminated lines.
 *
 * A search reports "not found" as the end position rather than -1 wherever
 * the result is used to cut the text, so that `s[i + 1..]` always drops at
 * least one character.
 */
module Text {
  import opened Wrappers

  /**
   * The characters Go's `unicode.IsSpace` accepts, which is what
   * `strings.TrimSpace` removes: the ASCII blanks, NEL, NBSP and the
   * remaining Unicode White_Space code points.
   */
  const Spaces: set<char> := {
    '\t', '\n', '\U{0B}', '\U{0C}', '\r', ' ', '\U{85}', '\U{A0}', '\U{1680}',
    '\U{2000}', '\U{2001}', '\U{2002}', '\U{2003}', '\U{2004}', '\U{2005}',
    '\U{2006}', '\U{2007}', '\U{2008}', '\U{2009}', '\U{200A}',
    '\U{2028}', '\U{2029}', '\U{202F}', '\U{205F}', '\U{3000}'
  }

  /** Position of the first `c` in `s` at or after `from`, or `|s|` when there is none. */
  function IndexFrom(s: string, c: char, from: nat): (i: nat)
    requires from <= |s|
    ensures from <= i <= |s|
    ensures i < |s| ==> s[i] == c
    ensures forall k | from <= k < i :: s[k] != c
    decreases |s| - from
  {
    if from == |s| || s[from] == c then from else IndexFrom(s, c, from + 1)
  }

  /** `strings.IndexByte`: position of the first `c` in `s`, or -1 when there is none. */
  function IndexOf(s: string, c: char): (i: int)
    ensures -1 <= i < |s|
    ensures 0 <= i ==> s[i] == c
    ensures forall k | 0 <= k < |s| && (i < 0 || k < i) :: s[k] != c
    ensures i < 0 <==> c !in s
  {
    var i := IndexFrom(s, c, 0);
    if i == |s| then -1 else i
  }

  /** The last position holding `x`, if any. */
  function LastIn<T(==)>(xs: seq<T>, x: T): (r: Option<nat>)
    ensures r.Some? ==> r.value < |xs| && xs[r.value] == x
    ensures r.Some? ==> forall j | r.value < j < |xs| :: xs[j] != x
    ensures r.None? ==> x !in xs
    decreases |xs|
  {
    if xs == [] then None
    else
      var n := |xs| - 1;
      assert xs == xs[..n] + [xs[n]];
      if xs[n] == x then Some(n) else LastIn(xs[..n], x)
  }

  /** The search from `from` stops at the first `c`, or at the end when there is none. */
  lemma IndexFromAt(s: string, c: char, from: nat, i: nat)
    requires from <= i <= |s|
    requires i < |s| ==> s[i] == c
    requires forall k | from <= k < i :: s[k] != c
    ensures IndexFrom(s, c, from) == i
  {
  }

  /** The first occurrence is the one with no earlier occurrence. */
  lemma IndexAt(s: string, c: char, i: int)
    requires 0 <= i < |s| && s[i] == c && c !in s[..i]
    ensures IndexOf(s, c) == i
  {
    assert forall k | 0 <= k < i :: s[k] == s[..i][k];
    IndexFromAt(s, c, 0, i);
  }

  /** A stretch with no position holding `c` does not contain `c`. */
  lemma Free(s: string, c: char, lo: int, hi: int)
    requires 0 <= lo <= hi <= |s|
    requires forall k | lo <= k < hi :: s[k] != c
    ensures c !in s[lo..hi]
  {
    forall x | x in s[lo..hi]
      ensures x != c
    {
      var k :| 0 <= k < hi - lo && s[lo..hi][k] == x;
      assert s[lo + k] == x;
    }
  }

  /**
   * `strings.Split(s, string(sep))` (and `bytes.Split` with a one-byte
   * separator): the pieces between consecutive separators, always at least one.
   */
  function Split(s: string, sep: char): (parts: seq<string>)
    ensures |parts| >= 1
    ensures forall p | p in parts :: sep !in p
    decreases |s|
  {
    var i := IndexFrom(s, sep, 0);
    Free(s, sep, 0, i);
    assert s[0..i] == s[..i];
    if i == |s| then [s] else [s[..i]] + Split(s[i + 1..], sep)
  }

  /** `strings.Join`: the pieces with one separator between neighbours. */
  function Join(parts: seq<string>, sep: char): string
  {
    if parts == [] then []
    else if |parts| == 1 then parts[0]
    else parts[0] + [sep] + Join(parts[1..], sep)
  }

  /** Splitting restarts after the first separator. */
  lemma SplitAt(s: string, sep: char, i: int)
    requires 0 <= i < |s| && s[i] == sep && sep !in s[..i]
    ensures Split(s, sep) == [s[..i]] + Split(s[i + 1..], sep)
  {
    assert forall k | 0 <= k < i :: s[k] == s[..i][k];
    IndexFromAt(s, sep, 0, i);
  }

  /** A text without the separator is a single piece. */
  lemma SplitNone(s: string, sep: char)
    requires sep !in s
    ensures Split(s, sep) == [s]
  {
    IndexFromAt(s, sep, 0, |s|);
  }

  /** Joining the pieces gives back the text. */
  lemma {:induction false} JoinSplit(s: string, sep: char)
    ensures Join(Split(s, sep), sep) == s
    decreases |s|
  {
    var i := IndexFrom(s, sep, 0);
    if i < |s| {
      var head, tail := s[..i], s[i + 1..];
      var rest := Split(tail, sep);
      var parts := [head] + rest;
      assert Split(s, sep) == parts;
      assert parts[1..] == rest;
      assert Join(parts, sep) == head + [sep] + Join(rest, sep);
      JoinSplit(tail, sep);
      assert s == head + [sep] + tail;
    }
  }

  /** Splitting a join of separator-free pieces gives back the pieces. */
  lemma {:induction false} SplitJoin(parts: seq<string>, sep: char)
    requires |parts| >= 1
    requires forall p | p in parts :: sep !in p
    ensures Split(Join(parts, sep), sep) == parts
    decreases |parts|
  {
    if |parts| == 1 {
      SplitNone(parts[0], sep);
    } else {
      var p, more := parts[0], parts[1..];
      var tail := Join(more, sep);
      var s := p + [sep] + tail;
      assert Join(parts, sep) == s;
      assert s[..|p|] == p;
      assert s[|p| + 1..] == tail;
      SplitAt(s, sep, |p|);
      assert forall q | q in more :: q in parts;
      SplitJoin(more, sep);
      assert parts == [p] + more;
    }
  }

  /** A separator between two texts, the first without it, counts once more than the second. */
  lemma CountAround(before: string, sep: char, after: string)
    requires sep !in before
    ensures multiset(before + [sep] + after)[sep] == multiset(after)[sep] + 1
  {
    assert multiset(before + [sep] + after) == multiset(before) + multiset([sep]) + multiset(after);
  }

  /** There is one piece more than there are separators. */
  lemma {:induction false} SplitCount(s: string, sep: char)
    ensures |Split(s, sep)| == multiset(s)[sep] + 1
    decreases |s|
  {
    var i := IndexFrom(s, sep, 0);
    if i == |s| {
      Free(s, sep, 0, |s|);
      assert s[0..|s|] == s;
    } else {
      var before, after := s[..i], s[i + 1..];
      assert |Split(s, sep)| == 1 + |Split(after, sep)|;
      SplitCount(after, sep);
      Free(s, sep, 0, i);
      assert s[0..i] == before;
      assert s == before + [sep] + after;
      CountAround(before, sep, after);
    }
  }

  /** `s` is `r` with only characters of `cut` removed around it, `r` starting at `start`. */
  ghost predicate Surrounds(s: string, r: string, cut: set<char>, start: int)
  {
    && 0 <= start <= |s| - |r|
    && s[start..start + |r|] == r
    && (forall k | 0 <= k < start :: s[k] in cut)
    && (forall k | start + |r| <= k < |s| :: s[k] in cut)
  }

  /** `r` is `s` with surrounding characters of `cut` removed. */
  ghost predicate Trimmed(s: string, r: string, cut: set<char>)
  {
    exists start :: Surrounds(s, r, cut, start)
  }

  lemma SliceChars(s: string, lo: int, hi: int)
    requires 0 <= lo <= hi <= |s|
    ensures forall c | c in s[lo..hi] :: c in s
  {
    forall c | c in s[lo..hi]
      ensures c in s
    {
      var i :| lo <= i < hi && s[i] == c;
    }
  }

  /** Neither end of `s` is in `cut`: trimming with `cut` has nothing to remove. */
  predicate Bare(s: string, cut: set<char>)
  {
    s == [] || (s[0] !in cut && s[|s| - 1] !in cut)
  }

  /** Where `s` starts once the `cut` characters from `from` on are skipped. */
  function SkipLeft(s: string, cut: set<char>, from: nat): (i: nat)
    requires from <= |s|
    ensures from <= i <= |s|
    ensures forall k | from <= k < i :: s[k] in cut
    ensures i < |s| ==> s[i] !in cut
    decreases |s| - from
  {
    if from < |s| && s[from] in cut then SkipLeft(s, cut, from + 1) else from
  }

  /** Where `s[..hi]` ends once the `cut` characters at its end are dropped, never before `lo`. */
  function SkipRight(s: string, cut: set<char>, lo: nat, hi: nat): (j: nat)
    requires lo <= hi <= |s|
    ensures lo <= j <= hi
    ensures forall k | j <= k < hi :: s[k] in cut
    ensures lo < j ==> s[j - 1] !in cut
    decreases hi
  {
    if lo < hi && s[hi - 1] in cut then SkipRight(s, cut, lo, hi - 1) else hi
  }

  /** The skip from the left ends at the first character outside `cut`. */
  lemma SkipLeftAt(s: string, cut: set<char>, i: nat)
    requires i <= |s|
    requires forall k | 0 <= k < i :: s[k] in cut
    requires i < |s| ==> s[i] !in cut
    ensures SkipLeft(s, cut, 0) == i
  {
  }

  /** The skip from the right ends after the last character outside `cut`. */
  lemma SkipRightAt(s: string, cut: set<char>, lo: nat, j: nat)
    requires lo <= j <= |s|
    requires forall k | j <= k < |s| :: s[k] in cut
    requires lo < j ==> s[j - 1] !in cut
    ensures SkipRight(s, cut, lo, |s|) == j
  {
  }

  /** `strings.TrimRight(s, cut)`: drops the longest suffix made of `cut` characters. */
  function TrimRight(s: string, cut: set<char>): (r: string)
    ensures |r| <= |s| && r == s[..|r|]
    ensures forall k | |r| <= k < |s| :: s[k] in cut
    ensures r == [] || r[|r| - 1] !in cut
  {
    s[..SkipRight(s, cut, 0, |s|)]
  }

  /** `strings.Trim(s, cut)`: drops the `cut` characters at both ends. */
  function Trim(s: string, cut: set<char>): (r: string)
    ensures Bare(r, cut)
    ensures forall c | c in r :: c in s
  {
    var i := SkipLeft(s, cut, 0);
    var j := SkipRight(s, cut, i, |s|);
    SliceChars(s, i, j);
    s[i..j]
  }

  /** What `Trim` leaves is `s` with only characters of `cut` removed around it. */
  lemma TrimTrims(s: string, cut: set<char>)
    ensures Trimmed(s, Trim(s, cut), cut)
  {
    var i := SkipLeft(s, cut, 0);
    assert Surrounds(s, Trim(s, cut), cut, i);
  }

  /** A text made only of `cut` characters trims to nothing. */
  lemma TrimAll(s: string, cut: set<char>)
    requires forall k | 0 <= k < |s| :: s[k] in cut
    ensures Trim(s, cut) == []
  {
    SkipLeftAt(s, cut, |s|);
  }

  /** Trimming a text with a bare, non-empty middle leaves the middle. */
  lemma TrimAround(a: string, m: string, b: string, cut: set<char>)
    requires forall k | 0 <= k < |a| :: a[k] in cut
    requires forall k | 0 <= k < |b| :: b[k] in cut
    requires m != [] && Bare(m, cut)
    ensures Trim(a + m + b, cut) == m
  {
    var s := a + m + b;
    assert forall k | 0 <= k < |a| :: s[k] == a[k];
    SkipLeftAt(s, cut, |a|);
    assert forall k | |a| + |m| <= k < |s| :: s[k] == b[k - |a| - |m|];
    SkipRightAt(s, cut, |a|, |a| + |m|);
    assert s[|a|..|a| + |m|] == m;
  }

  /** `strings.TrimSpace`. */
  function TrimSpace(s: string): (r: string)
    ensures Bare(r, Spaces)
    ensures forall c | c in r :: c in s
  {
    Trim(s, Spaces)
  }

  /** A text whose ends are not in the cut set is left alone. */
  lemma TrimUnchanged(s: string, cut: set<char>)
    requires Bare(s, cut)
    ensures Trim(s, cut) == s
  {
    if s != [] {
      TrimAround([], s, [], cut);
      assert [] + s + [] == s;
    }
  }

  /** Trimming the right end only looks at the right end. */
  lemma TrimRightAppend(u: string, v: string, cut: set<char>)
    requires TrimRight(v, cut) != []
    ensures TrimRight(u + v, cut) == u + TrimRight(v, cut)
  {
    var s := u + v;
    var j := SkipRight(v, cut, 0, |v|);
    assert forall k | |u| + j <= k < |s| :: s[k] == v[k - |u|];
    assert s[|u| + j - 1] == v[j - 1];
    SkipRightAt(s, cut, 0, |u| + j);
    assert s[..|u| + j] == u + v[..j];
  }

  /** A trailing character of the cut set makes no difference to `TrimRight`. */
  lemma TrimRightDropLast(s: string, c: char, cut: set<char>)
    requires c in cut
    ensures TrimRight(s + [c], cut) == TrimRight(s, cut)
  {
    var t := s + [c];
    var j := SkipRight(s, cut, 0, |s|);
    assert forall k | j <= k < |s| :: t[k] == s[k];
    assert 0 < j ==> t[j - 1] == s[j - 1];
    SkipRightAt(t, cut, 0, j);
    assert t[..j] == s[..j];
  }

  lemma TrimAllSnoc(s: string, c: char, cut: set<char>)
    requires c in cut
    requires forall k | 0 <= k < |s| :: s[k] in cut
    ensures Trim(s + [c], cut) == []
  {
    var t := s + [c];
    assert forall k | 0 <= k < |s| :: t[k] == s[k];
    TrimAll(t, cut);
  }

  /** A trailing character of the cut set makes no difference to `Trim`. */
  lemma TrimDropLast(s: string, c: char, cut: set<char>)
    requires c in cut
    ensures Trim(s + [c], cut) == Trim(s, cut)
  {
    if SkipLeft(s, cut, 0) == |s| {
      TrimAll(s, cut);
      TrimAllSnoc(s, c, cut);
    } else {
      TrimDropLastMiddle(s, c, cut);
    }
  }

  /** `TrimDropLast` for a text with a character outside the cut set. */
  lemma TrimDropLastMiddle(s: string, c: char, cut: set<char>)
    requires c in cut && SkipLeft(s, cut, 0) < |s|
    ensures Trim(s + [c], cut) == Trim(s, cut)
  {
    var a, m, b := TrimPieces(s, cut);
    TrimAround(a, m, b, cut);
    TrimAroundSnoc(a, m, b, c, cut);
  }

  /** A text with a character outside the cut set is cut characters, a bare middle, cut characters. */
  lemma TrimPieces(s: string, cut: set<char>) returns (a: string, m: string, b: string)
    requires SkipLeft(s, cut, 0) < |s|
    ensures s == a + m + b
    ensures forall k | 0 <= k < |a| :: a[k] in cut
    ensures forall k | 0 <= k < |b| :: b[k] in cut
    ensures m != [] && Bare(m, cut)
  {
    var i := SkipLeft(s, cut, 0);
    var j := SkipRight(s, cut, i, |s|);
    a, m, b := s[..i], s[i..j], s[j..];
    assert s == a + m + b;
  }

  /** `TrimAround` with one more cut character at the end. */
  lemma TrimAroundSnoc(a: string, m: string, b: string, c: char, cut: set<char>)
    requires c in cut
    requires forall k | 0 <= k < |a| :: a[k] in cut
    requires forall k | 0 <= k < |b| :: b[k] in cut
    requires m != [] && Bare(m, cut)
    ensures Trim(a + m + b + [c], cut) == m
  {
    var b' := b + [c];
    assert forall k | 0 <= k < |b'| :: b'[k] in cut by {
      forall k | 0 <= k < |b'| ensures b'[k] in cut {
        if k < |b| { assert b'[k] == b[k]; }
      }
    }
    assert a + m + b + [c] == a + m + b';
    TrimAround(a, m, b', cut);
  }

  /** `strings.HasSuffix`. */
  predicate HasSuffix(s: string, suffix: string)
  {
    |suffix| <= |s| && s[|s| - |suffix|..] == suffix
  }

  /** `strings.TrimSuffix`: removes `suffix` once when present. */
  function TrimSuffix(s: string, suffix: string): (r: string)
    ensures HasSuffix(s, suffix) ==> r + suffix == s
    ensures !HasSuffix(s, suffix) ==> r == s
  {
    if HasSuffix(s, suffix) then s[..|s| - |suffix|] else s
  }

  /**
   * The lines a `bufio.Reader` yields through `ReadBytes('\n')` before it
   * reports end of input, each without its terminating newline: every
   * newline-separated piece but the last. Text after the last newline is never
   * yielded.
   */
  function Lines(data: string): (lines: seq<string>)
    ensures forall l | l in lines :: '\n' !in l
  {
    var parts := Split(data, '\n');
    assert forall l | l in parts[..|parts| - 1] :: l in parts;
    parts[..|parts| - 1]
  }

  /** A terminated line comes first, then the lines of the rest. */
  lemma LinesAt(s: string, i: int)
    requires 0 <= i < |s| && s[i] == '\n' && '\n' !in s[..i]
    ensures Lines(s) == [s[..i]] + Lines(s[i + 1..])
  {
    SplitAt(s, '\n', i);
    var rest := Split(s[i + 1..], '\n');
    assert ([s[..i]] + rest)[..|rest|] == [s[..i]] + rest[..|rest| - 1];
  }

  /** The line reader's step: the text up to the first newline, then the lines after it. */
  lemma LinesNext(s: string, i: nat)
    requires i < |s| && i == IndexFrom(s, '\n', 0)
    ensures Lines(s) == [s[..i]] + Lines(s[i + 1..])
  {
    Free(s, '\n', 0, i);
    assert s[0..i] == s[..i];
    LinesAt(s, i);
  }

  /** The line reader stops when no newline is left. */
  lemma LinesEnd(s: string)
    requires IndexFrom(s, '\n', 0) == |s|
    ensures Lines(s) == []
  {
    Free(s, '\n', 0, |s|);
    assert s[0..|s|] == s;
    LinesUnterminated(s);
  }

  /** A line followed by a newline and more text. */
  lemma LinesCons(line: string, rest: string)
    requires '\n' !in line
    ensures Lines(line + "\n" + rest) == [line] + Lines(rest)
  {
    var s := line + "\n" + rest;
    assert s[..|line|] == line;
    assert s[|line| + 1..] == rest;
    LinesAt(s, |line|);
  }

  /** A final line without a newline is dropped. */
  lemma LinesUnterminated(tail: string)
    requires '\n' !in tail
    ensures Lines(tail) == []
  {
    SplitNone(tail, '\n');
  }
}
