/**
 * The handful of JavaScript string operations the modelled scripts rely on:
 * `includes`, `startsWith`, `trim`, `split` on one character and `join`.
 * Strings are plain `seq<char>`; there is no encoding or normalisation.
 */
module Strings {
  import opened Basics

  /** `String.prototype.startsWith`: `p` is a prefix of `s`. */
  predicate StartsWith(s: string, p: string) {
    p <= s
  }

  /** `sub` sits in `s` at position `i`. */
  ghost predicate OccursAt(s: string, sub: string, i: int) {
    0 <= i && i + |sub| <= |s| && s[i..i + |sub|] == sub
  }

  /** `String.prototype.includes`: `sub` occurs somewhere in `s`. */
  predicate Contains(s: string, sub: string)
    decreases |s|
  {
    sub <= s || (|s| > 0 && Contains(s[1..], sub))
  }

  /** Every success of `Contains` is witnessed by a position. */
  lemma {:induction false} ContainsSound(s: string, sub: string) returns (i: nat)
    requires Contains(s, sub)
    ensures OccursAt(s, sub, i)
    decreases |s|
  {
    if sub <= s {
      i := 0;
    } else {
      var j := ContainsSound(s[1..], sub);
      assert s[1..][j..j + |sub|] == s[j + 1..j + 1 + |sub|];
      i := j + 1;
    }
  }

  /** Every position where `sub` sits is found by `Contains`. */
  lemma {:induction false} ContainsComplete(s: string, sub: string, i: int)
    requires OccursAt(s, sub, i)
    ensures Contains(s, sub)
    decreases i
  {
    if i == 0 {
      assert s[..|sub|] == sub;
    } else {
      assert s[1..][i - 1..i - 1 + |sub|] == s[i..i + |sub|];
      ContainsComplete(s[1..], sub, i - 1);
    }
  }

  /** `Contains` holds exactly when some position witnesses it. */
  lemma ContainsIff(s: string, sub: string)
    ensures Contains(s, sub) <==> exists i :: OccursAt(s, sub, i)
  {
    if Contains(s, sub) {
      var i := ContainsSound(s, sub);
    }
    if exists i :: OccursAt(s, sub, i) {
      var i :| OccursAt(s, sub, i);
      ContainsComplete(s, sub, i);
    }
  }

  /** A string occurs in any string that has it as an infix. */
  lemma ContainsInfix(a: string, b: string, c: string)
    ensures Contains(a + b + c, b)
  {
    assert (a + b + c)[|a|..|a| + |b|] == b;
    ContainsComplete(a + b + c, b, |a|);
  }

  /** Appending on the right keeps an occurrence. */
  lemma ContainsAppendRight(a: string, b: string, sub: string)
    requires Contains(a, sub)
    ensures Contains(a + b, sub)
  {
    var i := ContainsSound(a, sub);
    assert (a + b)[i..i + |sub|] == a[i..i + |sub|];
    ContainsComplete(a + b, sub, i);
  }

  /** Prepending on the left keeps an occurrence. */
  lemma ContainsAppendLeft(a: string, b: string, sub: string)
    requires Contains(b, sub)
    ensures Contains(a + b, sub)
  {
    var i := ContainsSound(b, sub);
    assert (a + b)[|a| + i..|a| + i + |sub|] == b[i..i + |sub|];
    ContainsComplete(a + b, sub, |a| + i);
  }

  /** An occurrence inside an occurrence is an occurrence. */
  lemma ContainsTransitive(a: string, b: string, c: string)
    requires Contains(a, b) && Contains(b, c)
    ensures Contains(a, c)
  {
    var i := ContainsSound(a, b);
    var j := ContainsSound(b, c);
    assert a[i..i + |b|] == b && b[j..j + |c|] == c;
    assert forall k :: 0 <= k < |c| ==> a[i + j + k] == b[j + k] == c[k];
    assert a[i + j..i + j + |c|] == c;
    ContainsComplete(a, c, i + j);
  }

  // ---------------------------------------------------------------------
  // trim

  /**
   * ECMAScript white space and line terminators, the characters
   * `String.prototype.trim` removes from either end.
   */
  predicate IsJsWhitespace(c: char) {
    || c == '\t' || c == '\n' || c == '\U{B}' || c == '\U{C}' || c == '\r'
    || c == ' ' || c == '\U{A0}' || c == '\U{1680}'
    || ('\U{2000}' <= c <= '\U{200A}')
    || c == '\U{2028}' || c == '\U{2029}' || c == '\U{202F}' || c == '\U{205F}'
    || c == '\U{3000}' || c == '\U{FEFF}'
  }

  /** The index of the first character at or after `i` that is not white space, or `|s|`. */
  function SkipLeading(s: string, i: nat): (j: nat)
    requires i <= |s|
    ensures i <= j <= |s|
    ensures forall k :: i <= k < j ==> IsJsWhitespace(s[k])
    ensures j < |s| ==> !IsJsWhitespace(s[j])
    decreases |s| - i
  {
    if i < |s| && IsJsWhitespace(s[i]) then SkipLeading(s, i + 1) else i
  }

  /**
   * The end of `s[lo..j]` once trailing white space is dropped: the least
   * `e` no smaller than `lo` such that `s[e..j]` is all white space.
   */
  function SkipTrailing(s: string, lo: nat, j: nat): (e: nat)
    requires lo <= j <= |s|
    ensures lo <= e <= j
    ensures forall k :: e <= k < j ==> IsJsWhitespace(s[k])
    ensures e > lo ==> !IsJsWhitespace(s[e - 1])
    decreases j
  {
    if j > lo && IsJsWhitespace(s[j - 1]) then SkipTrailing(s, lo, j - 1) else j
  }

  /**
   * `String.prototype.trim`: the part of `s` between its leading and its
   * trailing white space.
   */
  function Trim(s: string): (r: string)
    ensures var i := SkipLeading(s, 0);
            && i + |r| <= |s|
            && r == s[i..i + |r|]
            && (forall k :: 0 <= k < i ==> IsJsWhitespace(s[k]))
            && (forall k :: i + |r| <= k < |s| ==> IsJsWhitespace(s[k]))
    ensures |r| > 0 ==> !IsJsWhitespace(r[0]) && !IsJsWhitespace(r[|r| - 1])
  {
    var i := SkipLeading(s, 0);
    s[i..SkipTrailing(s, i, |s|)]
  }

  // ---------------------------------------------------------------------
  // split and join

  /** `Array.prototype.join`: the pieces with `sep` between neighbours. */
  function Join(pieces: seq<string>, sep: string): string {
    if |pieces| == 0 then ""
    else if |pieces| == 1 then pieces[0]
    else pieces[0] + sep + Join(pieces[1..], sep)
  }

  /** `String.prototype.split` on a single character. */
  function Split(s: string, d: char): (r: seq<string>)
    ensures |r| >= 1
    ensures forall k :: 0 <= k < |r| ==> d !in r[k]
    decreases |s|
  {
    if d in s then
      var i := FirstIndex(s, d);
      [s[..i]] + Split(s[i + 1..], d)
    else
      [s]
  }

  /** Joining a head piece before at least one more piece puts `sep` after it. */
  lemma JoinCons(head: string, rest: seq<string>, sep: string)
    requires |rest| >= 1
    ensures Join([head] + rest, sep) == head + sep + Join(rest, sep)
  {
    assert ([head] + rest)[1..] == rest;
  }

  /** The pieces of a split: the part before the first `d`, then the split of the rest. */
  lemma SplitAtFirst(s: string, d: char)
    requires d in s
    ensures var i := FirstIndex(s, d);
            && Split(s, d) == [s[..i]] + Split(s[i + 1..], d)
            && s == s[..i] + [d] + s[i + 1..]
  {
    var i := FirstIndex(s, d);
    assert s == s[..i] + [s[i]] + s[i + 1..];
  }

  /** Joining the pieces of a split gives back the string. */
  lemma {:induction false} JoinSplit(s: string, d: char)
    ensures Join(Split(s, d), [d]) == s
    decreases |s|
  {
    if d in s {
      var i := FirstIndex(s, d);
      var rest := Split(s[i + 1..], d);
      JoinSplit(s[i + 1..], d);
      SplitAtFirst(s, d);
      JoinCons(s[..i], rest, [d]);
    }
  }

  /** The first `d` in `a + [d] + b` is the one after `a` when `a` has none. */
  lemma FirstIndexAfter(a: string, d: char, b: string)
    requires d !in a
    ensures d in a + [d] + b && FirstIndex(a + [d] + b, d) == |a|
  {
    var s := a + [d] + b;
    assert s[|a|] == d;
    assert s[..|a|] == a;
  }

  /** Splitting a join of separator-free pieces gives back the pieces. */
  lemma {:induction false} SplitJoin(pieces: seq<string>, d: char)
    requires |pieces| >= 1
    requires forall k :: 0 <= k < |pieces| ==> d !in pieces[k]
    ensures Split(Join(pieces, [d]), d) == pieces
    decreases |pieces|
  {
    if |pieces| > 1 {
      var head, tail := pieces[0], Join(pieces[1..], [d]);
      var s := head + [d] + tail;
      assert pieces == [head] + pieces[1..];
      JoinCons(head, pieces[1..], [d]);
      FirstIndexAfter(head, d, tail);
      SplitAtFirst(s, d);
      assert s[..|head|] == head;
      assert s[|head| + 1..] == tail;
      SplitJoin(pieces[1..], d);
    }
  }

  /** A piece's content occurs in the joined string. */
  lemma {:induction false} JoinContainsPiece(pieces: seq<string>, sep: string, k: nat, sub: string)
    requires k < |pieces|
    requires Contains(pieces[k], sub)
    ensures Contains(Join(pieces, sep), sub)
    decreases |pieces|
  {
    if |pieces| > 1 {
      if k == 0 {
        ContainsAppendRight(pieces[0], sep + Join(pieces[1..], sep), sub);
        assert pieces[0] + sep + Join(pieces[1..], sep) == pieces[0] + (sep + Join(pieces[1..], sep));
      } else {
        JoinContainsPiece(pieces[1..], sep, k - 1, sub);
        ContainsAppendLeft(pieces[0] + sep, Join(pieces[1..], sep), sub);
      }
    }
  }

  /** Every piece of a join occurs in any string that has the join as an infix. */
  lemma JoinedPieceBetween(pre: string, pieces: seq<string>, sep: string, post: string, k: nat)
    requires k < |pieces|
    ensures Contains(pre + Join(pieces, sep) + post, pieces[k])
  {
    var joined := Join(pieces, sep);
    assert Contains(pieces[k], pieces[k]);
    JoinContainsPiece(pieces, sep, k, pieces[k]);
    ContainsAppendLeft(pre, joined, pieces[k]);
    ContainsAppendRight(pre + joined, post, pieces[k]);
  }

  /** A character found in no piece and not in the separator is not in the join. */
  lemma {:induction false} JoinExcludes(pieces: seq<string>, sep: string, c: char)
    requires c !in sep
    requires forall k :: 0 <= k < |pieces| ==> c !in pieces[k]
    ensures c !in Join(pieces, sep)
    decreases |pieces|
  {
    if |pieces| > 1 {
      JoinExcludes(pieces[1..], sep, c);
    }
  }
}
