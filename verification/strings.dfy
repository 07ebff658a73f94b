/**
  The string operations the profile mapper relies on from Go's `strings`
  package: splitting on and joining with a one-character separator, and
  lower-casing. Strings are sequences of characters; the separator used by
  the mapper is the ASCII space, which is a single byte in UTF-8, so
  splitting characters and splitting bytes agree.
*/
module Strings {

  /** Position of the first occurrence of `c` in `s`. */
  function IndexOf(s: string, c: char): (i: nat)
    requires c in s
    ensures i < |s| && s[i] == c
    ensures c !in s[..i]
  {
    if s[0] == c then 0
    else
      assert s == [s[0]] + s[1..];
      var j := IndexOf(s[1..], c);
      assert s[..1 + j] == [s[0]] + s[1..][..j];
      1 + j
  }

  /**
    Go's `strings.Join`: no parts give the empty string, one part is returned
    as it is, and otherwise consecutive parts are separated by `sep`.
  */
  function Join(parts: seq<string>, sep: string): (r: string)
    ensures |parts| == 0 ==> r == ""
    ensures |parts| >= 1 ==> |r| == TotalLength(parts) + (|parts| - 1) * |sep|
    ensures |parts| >= 1 ==> r[..|parts[0]|] == parts[0]
  {
    if |parts| == 0 then ""
    else if |parts| == 1 then parts[0]
    else parts[0] + sep + Join(parts[1..], sep)
  }

  /** The combined length of the pieces. */
  function TotalLength(parts: seq<string>): nat
  {
    if |parts| == 0 then 0 else |parts[0]| + TotalLength(parts[1..])
  }

  /**
    Go's `strings.Split` with a one-character separator: the pieces of `s`
    between consecutive occurrences of `sep`, so that there is always one
    more piece than separators (the empty string gives one empty piece, and
    adjacent separators give empty pieces).
  */
  function Split(s: string, sep: char): (parts: seq<string>)
    ensures |parts| >= 1
    ensures |parts| == 1 <==> sep !in s
    ensures forall k :: 0 <= k < |parts| ==> sep !in parts[k]
    ensures Join(parts, [sep]) == s
    decreases |s|
  {
    if sep in s then
      var i := IndexOf(s, sep);
      assert s == s[..i] + [sep] + s[i + 1..];
      [s[..i]] + Split(s[i + 1..], sep)
    else
      [s]
  }

  /** The first separator in `a + [sep] + b` is the one after `a` when `a` holds none. */
  lemma IndexOfAfterPrefix(a: string, sep: char, b: string)
    requires sep !in a
    ensures sep in a + [sep] + b
    ensures IndexOf(a + [sep] + b, sep) == |a|
  {
    var s := a + [sep] + b;
    assert s[|a|] == sep;
    assert forall k :: 0 <= k < |a| ==> s[k] == a[k];
    assert s[..|a| + 1][|a|] == sep;
  }

  /** Splitting a join of separator-free pieces gives the pieces back. */
  lemma {:induction false} SplitOfJoin(parts: seq<string>, sep: char)
    requires |parts| >= 1
    requires forall k :: 0 <= k < |parts| ==> sep !in parts[k]
    ensures Split(Join(parts, [sep]), sep) == parts
  {
    if |parts| > 1 {
      var head, rest := parts[0], Join(parts[1..], [sep]);
      var s := Join(parts, [sep]);
      assert s == head + [sep] + rest;
      IndexOfAfterPrefix(head, sep, rest);
      assert s[..|head|] == head;
      assert s[|head| + 1..] == rest;
      assert Split(s, sep) == [head] + Split(rest, sep);
      SplitOfJoin(parts[1..], sep);
      assert parts == [head] + parts[1..];
    }
  }

  /**
    When `s` holds the separator, the first piece is the text before its
    first occurrence and the remaining pieces, joined again, are the text
    after it.
  */
  lemma SplitAtFirst(s: string, sep: char)
    requires sep in s
    ensures |Split(s, sep)| >= 2
    ensures Split(s, sep)[0] == s[..IndexOf(s, sep)]
    ensures Join(Split(s, sep)[1..], [sep]) == s[IndexOf(s, sep) + 1..]
  {
    var i := IndexOf(s, sep);
    assert Split(s, sep) == [s[..i]] + Split(s[i + 1..], sep);
    assert Split(s, sep)[1..] == Split(s[i + 1..], sep);
  }

  /** An ASCII capital letter. */
  predicate IsUpperAscii(c: char)
  {
    'A' <= c <= 'Z'
  }

  /** Lower-cases an ASCII capital and leaves every other character alone. */
  function LowerChar(c: char): char
  {
    if IsUpperAscii(c) then (c as int + 32) as char else c
  }

  /**
    `strings.ToLower` restricted to ASCII: every capital becomes its small
    letter and nothing else changes.
  */
  function ToLowerAscii(s: string): (r: string)
    ensures |r| == |s|
    ensures forall k :: 0 <= k < |r| ==> !IsUpperAscii(r[k])
    ensures forall k :: 0 <= k < |s| ==> (r[k] == s[k] <==> !IsUpperAscii(s[k]))
    ensures forall k :: 0 <= k < |s| && IsUpperAscii(s[k]) ==> r[k] as int - s[k] as int == 'a' as int - 'A' as int
  {
    seq(|s|, k requires 0 <= k < |s| => LowerChar(s[k]))
  }

  /** A string is left unchanged by lower-casing exactly when it has no capitals. */
  lemma LowerFixedPoint(s: string)
    ensures ToLowerAscii(s) == s <==> forall k :: 0 <= k < |s| ==> !IsUpperAscii(s[k])
  {
    if forall k :: 0 <= k < |s| ==> !IsUpperAscii(s[k]) {
      assert forall k :: 0 <= k < |s| ==> ToLowerAscii(s)[k] == s[k];
    }
  }

  /** Lower-casing twice is lower-casing once. */
  lemma LowerIdempotent(s: string)
    ensures ToLowerAscii(ToLowerAscii(s)) == ToLowerAscii(s)
  {
    LowerFixedPoint(ToLowerAscii(s));
  }
}
