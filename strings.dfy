/** String operations of the JavaScript runtime that the source relies on
    (`includes`, `startsWith`, `toLowerCase`, `indexOf`, `split`, `join`,
    `replace` with a string pattern), over `seq<char>`. */
module Strings {

  predicate IsDigit(c: char) {
    '0' <= c <= '9'
  }

  /** `s.startsWith(prefix)` */
  predicate StartsWith(s: string, prefix: string) {
    |prefix| <= |s| && s[..|prefix|] == prefix
  }

  /** `s.includes(sub)` */
  predicate Contains(s: string, sub: string)
    decreases |s|
  {
    StartsWith(s, sub) || (|s| > 0 && Contains(s[1..], sub))
  }

  /** Text that lacks one of the characters of `sub` does not contain `sub`. */
  lemma {:induction false} NotContainsMissingChar(s: string, sub: string, c: char)
    requires c in sub && c !in s
    ensures !Contains(s, sub)
    decreases |s|
  {
    if |sub| <= |s| {
      var k :| 0 <= k < |sub| && sub[k] == c;
      assert s[..|sub|][k] != sub[k];
    }
    if |s| > 0 {
      NotContainsMissingChar(s[1..], sub, c);
    }
  }

  /** `toLowerCase`, on the ASCII letters. */
  function LowerChar(c: char): char {
    if 'A' <= c <= 'Z' then (c as int + 32) as char else c
  }

  function ToLower(s: string): string {
    seq(|s|, i requires 0 <= i < |s| => LowerChar(s[i]))
  }

  /** `s.indexOf(c)`: the first position of `c`, or -1. */
  function IndexOf(s: string, c: char): (i: int)
    ensures -1 <= i < |s|
    ensures i == -1 <==> c !in s
    ensures 0 <= i ==> s[i] == c && c !in s[..i]
  {
    if |s| == 0 then -1
    else if s[0] == c then 0
    else
      var j := IndexOf(s[1..], c);
      assert s[1..][..j + 1] == s[1..j + 2] by { if j >= 0 { assert s[1..j + 2] == s[1..][..j + 1]; } }
      if j < 0 then -1 else j + 1
  }

  /** A character absent from a prefix is found no earlier than the prefix's end. */
  lemma IndexAtLeast(s: string, c: char, k: int)
    requires 0 <= k <= |s| && c in s && c !in s[..k]
    ensures IndexOf(s, c) >= k
  {
    var i := IndexOf(s, c);
    assert forall j | 0 <= j < k :: s[j] == s[..k][j];
  }

  /** The first occurrence is the one with none before it. */
  lemma IndexOfAt(s: string, c: char, k: int)
    requires 0 <= k < |s| && s[k] == c && c !in s[..k]
    ensures IndexOf(s, c) == k
  {
    IndexAtLeast(s, c, k);
    var i := IndexOf(s, c);
    assert forall j | 0 <= j < i :: s[j] == s[..i][j];
  }

  /** `s.lastIndexOf(c)`: the last position of `c`, or -1. */
  function LastIndexOf(s: string, c: char): (i: int)
    ensures -1 <= i < |s|
    ensures i == -1 <==> c !in s
    ensures 0 <= i ==> s[i] == c && c !in s[i + 1..]
  {
    if |s| == 0 then -1
    else if s[|s| - 1] == c then |s| - 1
    else
      var init := s[..|s| - 1];
      var j := LastIndexOf(init, c);
      assert s == init + [s[|s| - 1]];
      assert c in s <==> c in init;
      assert j >= 0 ==> s[j + 1..] == init[j + 1..] + [s[|s| - 1]];
      j
  }

  /** The first position at which `pat` occurs in `s`, or -1. */
  function FindFirst(s: string, pat: string): (i: int)
    ensures -1 <= i
    ensures 0 <= i ==> i + |pat| <= |s| && StartsWith(s[i..], pat)
    ensures forall j :: 0 <= j <= |s| - |pat| && (i == -1 || j < i) ==> !StartsWith(s[j..], pat)
    decreases |s|
  {
    if StartsWith(s, pat) then 0
    else if |s| == 0 then -1
    else
      var j := FindFirst(s[1..], pat);
      assert forall k :: 1 <= k <= |s| ==> s[k..] == s[1..][k - 1..];
      if j < 0 then -1 else j + 1
  }

  /** `s.replace(pat, rep)` with a string pattern: only the FIRST occurrence is replaced. */
  function ReplaceFirst(s: string, pat: string, rep: string): string {
    var i := FindFirst(s, pat);
    if i < 0 then s else s[..i] + rep + s[i + |pat|..]
  }

  /** `s.split(sep)` for a one-character separator: never empty. */
  function Split(s: string, sep: char): (parts: seq<string>)
    ensures |parts| >= 1
    decreases |s|
  {
    var i := IndexOf(s, sep);
    if i < 0 then [s] else [s[..i]] + Split(s[i + 1..], sep)
  }

  /** `parts.join(sep)` */
  function Join(parts: seq<string>, sep: char): string {
    if |parts| == 0 then ""
    else if |parts| == 1 then parts[0]
    else parts[0] + [sep] + Join(parts[1..], sep)
  }

  /** Splitting and joining with the same separator gives the string back. */
  lemma {:induction false} JoinSplit(s: string, sep: char)
    ensures Join(Split(s, sep), sep) == s
    decreases |s|
  {
    var i := IndexOf(s, sep);
    if i >= 0 {
      var rest := s[i + 1..];
      var tail := Split(rest, sep);
      JoinSplit(rest, sep);
      JoinCons(s[..i], tail, sep);
      assert s == s[..i] + [sep] + rest;
    }
  }

  lemma JoinCons(head: string, tail: seq<string>, sep: char)
    requires |tail| >= 1
    ensures Join([head] + tail, sep) == head + [sep] + Join(tail, sep)
  {
    assert ([head] + tail)[1..] == tail;
  }

  /** The segments after the first one, joined again, are the text after the first separator. */
  lemma SplitTail(s: string, sep: char)
    requires sep in s
    ensures |Split(s, sep)| > 1
    ensures Join(Split(s, sep)[1..], sep) == s[IndexOf(s, sep) + 1..]
  {
    var i := IndexOf(s, sep);
    var rest := s[i + 1..];
    var parts := Split(s, sep);
    assert parts == [s[..i]] + Split(rest, sep);
    assert parts[1..] == Split(rest, sep);
    JoinSplit(rest, sep);
  }

  /** When the last separator is followed by `tail`, the last segment is `tail`. */
  lemma {:induction false} SplitLastSegment(head: string, sep: char, tail: string)
    requires sep !in tail
    ensures var parts := Split(head + [sep] + tail, sep);
      |parts| > 1 && parts[|parts| - 1] == tail
    decreases |head|
  {
    var s := head + [sep] + tail;
    var i := IndexOf(s, sep);
    assert s[|head|] == sep;
    if i == |head| {
      assert s[i + 1..] == tail;
    } else {
      assert i < |head|;
      assert head[i] == sep;
      var rest := s[i + 1..];
      assert rest == head[i + 1..] + [sep] + tail;
      SplitLastSegment(head[i + 1..], sep, tail);
      assert Split(s, sep) == [s[..i]] + Split(rest, sep);
    }
  }

  /** A string without the separator splits into itself alone. */
  lemma SplitWithoutSeparator(s: string, sep: char)
    requires sep !in s
    ensures Split(s, sep) == [s]
  {
  }
}
