/** The string functions the bundle code borrows from Go's library, with what relates them. */
module Text {
  import opened Options

  /** The lower-case form of an ASCII letter. */
  function Lower(c: char): char {
    if 'A' <= c <= 'Z' then ((c as int) + 32) as char else c
  }

  predicate IsDigit(c: char) {
    '0' <= c <= '9'
  }

  function DigitValue(c: char): nat
    requires IsDigit(c)
  {
    c as nat - '0' as nat
  }

  predicate AllDigits(s: string) {
    forall i :: 0 <= i < |s| ==> IsDigit(s[i])
  }

  /** The decimal number a run of digits denotes. */
  function DigitsValue(s: string): nat
    requires AllDigits(s)
  {
    if s == "" then 0 else 10 * DigitsValue(s[..|s| - 1]) + DigitValue(s[|s| - 1])
  }

  function TrimPrefix(s: string, prefix: string): string {
    if prefix <= s then s[|prefix|..] else s
  }

  function TrimSuffix(s: string, suffix: string): string {
    if |suffix| <= |s| && s[|s| - |suffix|..] == suffix then s[..|s| - |suffix|] else s
  }

  /** strings.Cut at the first c: what stands before it, and after it when there is one. */
  function Cut(s: string, c: char): (string, Option<string>) {
    if s == "" then ("", None)
    else if s[0] == c then ("", Some(s[1..]))
    else var (before, after) := Cut(s[1..], c); ([s[0]] + before, after)
  }

  function Split(s: string, c: char): (parts: seq<string>)
    ensures |parts| > 0
    decreases |s|
  {
    var (before, after) := Cut(s, c);
    CutLength(s, c);
    match after
    case None => [before]
    case Some(rest) => [before] + Split(rest, c)
  }

  function Join(parts: seq<string>, c: char): string
    requires |parts| > 0
  {
    if |parts| == 1 then parts[0] else parts[0] + [c] + Join(parts[1..], c)
  }

  lemma {:induction false} CutLength(s: string, c: char)
    ensures Cut(s, c).1.Some? ==> |Cut(s, c).1.value| < |s|
  {
    if s != "" && s[0] != c {
      CutLength(s[1..], c);
    }
  }

  /** Cut undoes writing the separator after a string without it. */
  lemma {:induction false} CutAtSeparator(a: string, c: char, b: string)
    requires c !in a
    ensures Cut(a + [c] + b, c) == (a, Some(b))
  {
    var s := a + [c] + b;
    if a == "" {
      assert s[1..] == b;
    } else {
      assert s[1..] == a[1..] + [c] + b;
      CutAtSeparator(a[1..], c, b);
      assert [a[0]] + a[1..] == a;
    }
  }

  lemma {:induction false} CutWithoutSeparator(a: string, c: char)
    requires c !in a
    ensures Cut(a, c) == (a, None)
  {
    if a != "" {
      CutWithoutSeparator(a[1..], c);
      assert [a[0]] + a[1..] == a;
    }
  }

  lemma {:induction false} CutRebuilds(s: string, c: char)
    ensures var (before, after) := Cut(s, c);
      c !in before && s == match after case None => before case Some(rest) => before + [c] + rest
  {
    if s != "" && s[0] != c {
      CutRebuilds(s[1..], c);
    }
  }

  /** Split and Join are inverse to each other, on parts that do not hold the separator. */
  lemma {:induction false} SplitOfJoin(parts: seq<string>, c: char)
    requires |parts| > 0 && forall i :: 0 <= i < |parts| ==> c !in parts[i]
    ensures Split(Join(parts, c), c) == parts
  {
    if |parts| == 1 {
      CutWithoutSeparator(parts[0], c);
    } else {
      CutAtSeparator(parts[0], c, Join(parts[1..], c));
      SplitOfJoin(parts[1..], c);
    }
  }

  lemma {:induction false} JoinOfSplit(s: string, c: char)
    ensures Join(Split(s, c), c) == s
    ensures forall i :: 0 <= i < |Split(s, c)| ==> c !in Split(s, c)[i]
    decreases |s|
  {
    CutRebuilds(s, c);
    CutLength(s, c);
    var (before, after) := Cut(s, c);
    if after.Some? {
      JoinOfSplit(after.value, c);
      assert Split(s, c)[1..] == Split(after.value, c);
    }
  }

  /** A separator between two texts puts their parts side by side. */
  lemma {:induction false} SplitOfTwo(a: string, c: char, b: string)
    ensures Split(a + [c] + b, c) == Split(a, c) + Split(b, c)
    decreases |a|
  {
    CutRebuilds(a, c);
    CutLength(a, c);
    var (before, after) := Cut(a, c);
    if after.None? {
      CutAtSeparator(a, c, b);
    } else {
      var tail := after.value + [c] + b;
      assert a + [c] + b == before + [c] + tail;
      CutAtSeparator(before, c, tail);
      SplitOfTwo(after.value, c, b);
      assert [before] + (Split(after.value, c) + Split(b, c)) == [before] + Split(after.value, c) + Split(b, c);
    }
  }
}
