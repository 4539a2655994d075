/**
 * The secondary tokenizer `splitBy` (and `splitName`, which is `splitBy` on
 * a comma). Trailing delimiters are removed first; then a delimiter cuts the
 * text only when the character after it is not a space. A delimiter followed
 * by a space is not a cut, yet the text before it is still discarded, because
 * the start of the next token moves past every delimiter.
 */
module Tokenizer {
  import opened Text

  /**
   * The character right after the delimiter that ends a piece, given the piece
   * that follows it: its first character, or the next delimiter when that piece
   * is empty. After trailing delimiters are removed the last piece is empty only
   * when it is the only one, so an empty follower is always a delimiter.
   */
  function Follower(next: string, r: char): char
  {
    if next == [] then r else next[0]
  }

  /**
   * Which pieces survive: a piece is emitted when the delimiter after it is
   * followed by something other than a space; the last piece is emitted when it
   * is not empty.
   */
  function Emitted(pieces: seq<string>, r: char): (tokens: seq<string>)
    requires |pieces| >= 1
    ensures forall t | t in tokens :: t in pieces
    decreases |pieces|
  {
    if |pieces| == 1 then
      (if pieces[0] == [] then [] else pieces)
    else
      (if Follower(pieces[1], r) != ' ' then [pieces[0]] else []) + Emitted(pieces[1..], r)
  }

  /**
   * Reference definition of `splitBy(s, r)`: cut the text, stripped of trailing
   * delimiters, at every delimiter, then keep the pieces `Emitted` selects.
   */
  function SplitBy(s: string, r: char): (tokens: seq<string>)
    ensures forall t | t in tokens :: r !in t
  {
    Emitted(Split(TrimRight(s, {r}), r), r)
  }

  /** `splitName`: author name parts are separated by commas. */
  function SplitName(s: string): (parts: seq<string>)
    ensures forall p | p in parts :: ',' !in p
  {
    SplitBy(s, ',')
  }

  /** The first piece of a non-empty text tells which character starts it. */
  lemma FirstPieceFollower(s: string, r: char)
    requires s != []
    ensures Follower(Split(s, r)[0], r) == s[0]
  {
    var i := IndexFrom(s, r, 0);
    if i == 0 {
      assert Split(s, r)[0] == [];
    } else if i < |s| {
      assert Split(s, r)[0] == s[..i];
    }
  }

  /**
   * `splitBy`'s loop over the runes of the text: `last` marks
   * where the current token starts and moves past every delimiter; a token is
   * emitted at a delimiter only when a non-space character follows it.
   */
  method SplitByScan(s: string, r: char) returns (out: seq<string>)
    ensures out == SplitBy(s, r)
  {
    var arr := TrimRight(s, {r});
    out := Scan(arr, r);
  }

  /**
   * The scan's loop state after `i` characters: `last` is where the current
   * token starts, nothing since `last` is a delimiter, and `out` followed by the
   * tokens of the unscanned rest is the complete answer.
   */
  ghost predicate Scanned(arr: string, r: char, last: int, i: int, out: seq<string>)
  {
    && 0 <= last <= i <= |arr|
    && (forall k | last <= k < i :: arr[k] != r)
    && out + Emitted(Split(arr[last..], r), r) == Emitted(Split(arr, r), r)
  }

  /** The loop of `splitBy`, over a text that no longer ends in a delimiter. */
  method Scan(arr: string, r: char) returns (out: seq<string>)
    requires arr == [] || arr[|arr| - 1] != r
    ensures out == Emitted(Split(arr, r), r)
  {
    out := [];
    var last := 0;
    var i := 0;
    assert arr[last..] == arr;
    while i < |arr|
      invariant Scanned(arr, r, last, i, out)
    {
      if arr[i] == r {
        ScanDelimiter(arr, r, last, i, out);
        if arr[i + 1] != ' ' {
          out := out + [arr[last..i]];
        }
        last := i + 1;
      }
      i := i + 1;
    }
    ScanEnd(arr, r, last, out);
    if last < |arr| {
      out := out + [arr[last..]];
    }
  }

  /** At a delimiter the scan emits the current token when no space follows, and restarts after it. */
  lemma ScanDelimiter(arr: string, r: char, last: int, i: int, out: seq<string>)
    requires arr == [] || arr[|arr| - 1] != r
    requires Scanned(arr, r, last, i, out) && i < |arr| && arr[i] == r
    ensures i + 1 < |arr|
    ensures Scanned(arr, r, i + 1, i + 1, if arr[i + 1] != ' ' then out + [arr[last..i]] else out)
  {
    ScanStep(arr, r, last, i);
    var later := Emitted(Split(arr[i + 1..], r), r);
    if arr[i + 1] != ' ' {
      assert out + ([arr[last..i]] + later) == (out + [arr[last..i]]) + later;
    } else {
      assert [] + later == later;
    }
  }

  /** Past the last delimiter, the rest is one piece, kept when not empty. */
  lemma ScanEnd(arr: string, r: char, last: int, out: seq<string>)
    requires Scanned(arr, r, last, |arr|, out)
    ensures (if last < |arr| then out + [arr[last..]] else out) == Emitted(Split(arr, r), r)
  {
    SplitNone(arr[last..], r);
  }

  /** What the scan decides at a delimiter, in terms of the pieces. */
  lemma ScanStep(arr: string, r: char, last: int, i: int)
    requires 0 <= last <= i < |arr| && arr[i] == r
    requires arr == [] || arr[|arr| - 1] != r
    requires forall k | last <= k < i :: arr[k] != r
    ensures i + 1 < |arr|
    ensures Emitted(Split(arr[last..], r), r)
         == (if arr[i + 1] != ' ' then [arr[last..i]] else []) + Emitted(Split(arr[i + 1..], r), r)
  {
    var rest := arr[i + 1..];
    assert arr[last..][..i - last] == arr[last..i];
    assert arr[last..][i - last + 1..] == rest;
    SplitAt(arr[last..], r, i - last);
    FirstPieceFollower(rest, r);
    var pieces := Split(arr[last..], r);
    assert pieces[1..] == Split(rest, r);
  }

  /** An empty text has no tokens. */
  lemma SplitByEmpty(r: char)
    ensures SplitBy([], r) == []
  {
  }

  /** A non-empty text without the delimiter is one token, itself. */
  lemma SplitByNoDelimiter(s: string, r: char)
    requires r !in s
    ensures SplitBy(s, r) == if s == [] then [] else [s]
  {
    assert TrimRight(s, {r}) == s;
    SplitNone(s, r);
  }

  /** Trailing delimiters are ignored. */
  lemma SplitByTrailing(s: string, r: char)
    ensures SplitBy(s + [r], r) == SplitBy(s, r)
  {
    TrimRightDropLast(s, r, {r});
  }

  /** A delimiter followed by a non-space character cuts off the text before it. */
  lemma SplitByCut(a: string, b: string, r: char)
    requires r !in a
    requires b != [] && b[0] != ' ' && b[0] != r
    ensures SplitBy(a + [r] + b, r) == [a] + SplitBy(b, r)
  {
    var tb := TrimRight(b, {r});
    assert b[0] !in {r};
    TrimRightAppend(a + [r], b, {r});
    var arr := a + [r] + tb;
    assert arr[..|a|] == a;
    assert arr[|a| + 1..] == tb;
    SplitAt(arr, r, |a|);
    FirstPieceFollower(tb, r);
    assert tb[0] == b[0];
  }

  /**
   * A delimiter followed by a space is no cut, and the text before it is lost:
   * what is left is the tokenization of the text after the delimiter.
   */
  lemma SplitBySpacedDelimiter(a: string, b: string, r: char)
    requires r != ' ' && r !in a
    requires b != [] && b[0] == ' '
    ensures SplitBy(a + [r] + b, r) == SplitBy(b, r)
  {
    var tb := TrimRight(b, {r});
    assert b[0] !in {r};
    TrimRightAppend(a + [r], b, {r});
    var arr := a + [r] + tb;
    assert arr[..|a|] == a;
    assert arr[|a| + 1..] == tb;
    SplitAt(arr, r, |a|);
    FirstPieceFollower(tb, r);
    assert tb[0] == b[0];
  }

  /** Example: `splitBy("a, b,c", ',')` is `[" b", "c"]`. */
  lemma SplitByExample()
    ensures SplitBy("a, b,c", ',') == [" b", "c"]
  {
    SplitByNoDelimiter("c", ',');
    SplitByCut(" b", "c", ',');
    assert " b" + [','] + "c" == " b,c";
    SplitBySpacedDelimiter("a", " b,c", ',');
    assert "a" + [','] + " b,c" == "a, b,c";
  }

  /** A token never holds a character its text did not hold. */
  lemma SplitByParts(s: string, r: char, t: string)
    requires t in SplitBy(s, r)
    ensures forall c | c in t :: c in s
  {
    var arr := TrimRight(s, {r});
    SliceChars(s, 0, |arr|);
    SplitChars(arr, r, t);
  }

  lemma {:induction false} SplitChars(s: string, r: char, t: string)
    requires t in Split(s, r)
    ensures forall c | c in t :: c in s
    decreases |s|
  {
    var i := IndexFrom(s, r, 0);
    if i < |s| {
      SliceChars(s, 0, i);
      SliceChars(s, i + 1, |s|);
      assert s[0..i] == s[..i];
      if t != s[..i] {
        SplitChars(s[i + 1..], r, t);
      }
    }
  }
}
