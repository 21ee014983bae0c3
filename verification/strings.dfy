/**
 The sequence and string building blocks the tuple generator is made of:
 repeating a value, joining parts with a separator (the slice `join` of the
 Rust standard library), and the inverse of joining, splitting at a separator.
 */
module Strings {

  /** `n` copies of `x`, as `repeat(x).take(n).collect()` produces them. */
  function Repeat<T>(x: T, n: nat): (r: seq<T>)
    ensures |r| == n
    ensures forall i :: 0 <= i < |r| ==> r[i] == x
  {
    if n == 0 then [] else [x] + Repeat(x, n - 1)
  }

  /** Reference definition of joining: the parts, in order, with `sep` between
      each two neighbours and nowhere else. */
  function Join(sep: string, parts: seq<string>): string
  {
    if |parts| == 0 then ""
    else if |parts| == 1 then parts[0]
    else parts[0] + sep + Join(sep, parts[1..])
  }

  /** Sum of the lengths of the parts. */
  function TotalLength(parts: seq<string>): nat
  {
    if |parts| == 0 then 0 else |parts[0]| + TotalLength(parts[1..])
  }

  /** Joining one more part to the right adds the separator and that part. */
  lemma {:induction false} JoinSnoc(sep: string, parts: seq<string>, p: string)
    requires |parts| > 0
    ensures Join(sep, parts + [p]) == Join(sep, parts) + sep + p
    decreases |parts|
  {
    if |parts| == 1 {
      assert parts + [p] == [parts[0], p];
      assert [parts[0], p][1..] == [p];
    } else {
      assert (parts + [p])[1..] == parts[1..] + [p];
      JoinSnoc(sep, parts[1..], p);
    }
  }

  /** The joined text holds every character of every part plus one separator
      between each two neighbouring parts. */
  lemma {:induction false} JoinLength(sep: string, parts: seq<string>)
    requires |parts| > 0
    ensures |Join(sep, parts)| + |sep| == TotalLength(parts) + |sep| * |parts|
    decreases |parts|
  {
    if |parts| > 1 {
      JoinLength(sep, parts[1..]);
      assert |sep| * |parts| == |sep| * |parts[1..]| + |sep|;
    }
  }

  /** `n` copies of `x` have `n` times its length. */
  lemma {:induction false} RepeatTotalLength(x: string, n: nat)
    ensures TotalLength(Repeat(x, n)) == n * |x|
  {
    if n > 0 {
      assert Repeat(x, n)[1..] == Repeat(x, n - 1);
      RepeatTotalLength(x, n - 1);
    }
  }

  /** Joining as the standard library does it: start from the first part and
      append the separator and the next part, left to right. */
  method JoinLoop(sep: string, parts: seq<string>) returns (r: string)
    ensures r == Join(sep, parts)
  {
    if |parts| == 0 {
      return "";
    }
    r := parts[0];
    var i := 1;
    while i < |parts|
      invariant 1 <= i <= |parts|
      invariant r == Join(sep, parts[..i])
    {
      JoinSnoc(sep, parts[..i], parts[i]);
      assert parts[..i + 1] == parts[..i] + [parts[i]];
      r := r + sep + parts[i];
      i := i + 1;
    }
    assert parts[..i] == parts;
  }

  /** `sep` occurs in `s` starting at index `j`. */
  predicate OccursAt(s: string, sep: string, j: nat)
  {
    j + |sep| <= |s| && forall t :: 0 <= t < |sep| ==> s[j + t] == sep[t]
  }

  /** Index of the first occurrence of `sep` in `s`, or `|s|` when there is none. */
  function Find(s: string, sep: string): (i: nat)
    requires |sep| > 0
    ensures i <= |s|
    ensures i < |s| <==> OccursAt(s, sep, i)
    ensures forall j :: 0 <= j < i ==> !OccursAt(s, sep, j)
    decreases |s|
  {
    if |s| < |sep| then |s|
    else if OccursAt(s, sep, 0) then 0
    else
      var i := Find(s[1..], sep);
      assert forall j :: 1 <= j <= |s| ==> (OccursAt(s, sep, j) <==> OccursAt(s[1..], sep, j - 1));
      1 + i
  }

  /** The pieces of `s` between occurrences of `sep`, scanning left to right. */
  function SplitOn(s: string, sep: string): (parts: seq<string>)
    requires |sep| > 0
    ensures |parts| > 0
    decreases |s|
  {
    var i := Find(s, sep);
    if i == |s| then [s] else [s[..i]] + SplitOn(s[i + |sep|..], sep)
  }

  /** A text free of the separator's first character holds no occurrence,
      even when the separator follows it. */
  lemma FindAfterSepFreePrefix(a: string, sep: string, b: string)
    requires |sep| > 0 && sep[0] !in a
    ensures Find(a, sep) == |a|
    ensures Find(a + sep + b, sep) == |a|
  {
    var s := a + sep + b;
    assert OccursAt(s, sep, |a|) by {
      forall t | 0 <= t < |sep| ensures s[|a| + t] == sep[t] {
      }
    }
    forall j | 0 <= j < |a|
      ensures !OccursAt(s, sep, j) && !OccursAt(a, sep, j)
    {
      assert s[j + 0] == a[j] != sep[0];
    }
  }

  /** Splitting a joined text gives back the parts, provided no part contains
      the separator's first character. */
  lemma {:induction false} SplitJoin(sep: string, parts: seq<string>)
    requires |sep| > 0 && |parts| > 0
    requires forall i :: 0 <= i < |parts| ==> sep[0] !in parts[i]
    ensures SplitOn(Join(sep, parts), sep) == parts
    decreases |parts|
  {
    if |parts| == 1 {
      FindAfterSepFreePrefix(parts[0], sep, "");
    } else {
      var rest := Join(sep, parts[1..]);
      assert Join(sep, parts) == parts[0] + sep + rest;
      SplitAfterSepFreePrefix(parts[0], sep, rest);
      SplitJoin(sep, parts[1..]);
      assert parts == [parts[0]] + parts[1..];
    }
  }

  /** A separator-free first piece is cut off whole at the separator after it. */
  lemma SplitAfterSepFreePrefix(a: string, sep: string, b: string)
    requires |sep| > 0 && sep[0] !in a
    ensures SplitOn(a + sep + b, sep) == [a] + SplitOn(b, sep)
  {
    FindAfterSepFreePrefix(a, sep, b);
    PrefixAndSuffix(a, sep, b);
  }

  /** The pieces of `a + sep + b` before and after `sep` are `a` and `b`. */
  lemma PrefixAndSuffix(a: string, sep: string, b: string)
    ensures (a + sep + b)[..|a|] == a
    ensures (a + sep + b)[|a| + |sep|..] == b
  {
  }

  /** Joining a part in front of a non-empty list puts one separator after it. */
  lemma JoinCons(sep: string, x: string, parts: seq<string>)
    requires |parts| > 0
    ensures Join(sep, [x] + parts) == x + sep + Join(sep, parts)
  {
    assert ([x] + parts)[1..] == parts;
  }

  /** Around an occurrence of `sep` at `i`, the text is what precedes it,
      `sep`, and what follows it. */
  lemma CutAtOccurrence(s: string, sep: string, i: nat)
    requires OccursAt(s, sep, i)
    ensures s == s[..i] + sep + s[i + |sep|..]
  {
    assert s[i..i + |sep|] == sep;
    assert s == s[..i] + s[i..i + |sep|] + s[i + |sep|..];
  }

  /** Joining the pieces of a split with the same separator restores the text. */
  lemma {:induction false} JoinSplit(s: string, sep: string)
    requires |sep| > 0
    ensures Join(sep, SplitOn(s, sep)) == s
    decreases |s|
  {
    var i := Find(s, sep);
    if i < |s| {
      var tail := s[i + |sep|..];
      JoinSplit(tail, sep);
      assert SplitOn(s, sep) == [s[..i]] + SplitOn(tail, sep);
      JoinCons(sep, s[..i], SplitOn(tail, sep));
      CutAtOccurrence(s, sep, i);
    }
  }
}
