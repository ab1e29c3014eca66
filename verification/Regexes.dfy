/** Regular expressions over characters and the strings they match as a whole. */
module Regexes {
  datatype Regex =
    | Nothing
    | One(ok: char -> bool)
    | Then(first: Regex, second: Regex)
    | Or(left: Regex, right: Regex)
    | Star(body: Regex)

  predicate Matches(r: Regex, s: string)
    decreases r, |s|
  {
    match r
    case Nothing => s == ""
    case One(ok) => |s| == 1 && ok(s[0])
    case Then(a, b) => exists i | 0 <= i <= |s| :: Matches(a, s[..i]) && Matches(b, s[i..])
    case Or(a, b) => Matches(a, s) || Matches(b, s)
    case Star(a) => s == "" || exists i | 0 < i <= |s| :: Matches(a, s[..i]) && Matches(r, s[i..])
  }

  function Is(c: char): char -> bool {
    (x: char) => x == c
  }

  function Optional(r: Regex): Regex {
    Or(r, Nothing)
  }

  function Repeat(r: Regex, n: nat): Regex {
    if n == 0 then Nothing else Then(r, Repeat(r, n - 1))
  }

  function Literal(s: string): Regex {
    if s == "" then Nothing else Then(One(Is(s[0])), Literal(s[1..]))
  }

  lemma ThenJoins(a: Regex, b: Regex, x: string, y: string)
    requires Matches(a, x) && Matches(b, y)
    ensures Matches(Then(a, b), x + y)
  {
    assert (x + y)[..|x|] == x && (x + y)[|x|..] == y;
  }

  lemma ThenSplits(a: Regex, b: Regex, s: string) returns (x: string, y: string)
    requires Matches(Then(a, b), s)
    ensures s == x + y && Matches(a, x) && Matches(b, y)
  {
    var i :| 0 <= i <= |s| && Matches(a, s[..i]) && Matches(b, s[i..]);
    x, y := s[..i], s[i..];
  }

  lemma {:induction false} StarOfOne(ok: char -> bool, s: string)
    ensures Matches(Star(One(ok)), s) <==> forall i :: 0 <= i < |s| ==> ok(s[i])
    decreases |s|
  {
    if s != "" {
      StarOfOne(ok, s[1..]);
      if Matches(Star(One(ok)), s) {
        var i :| 0 < i <= |s| && Matches(One(ok), s[..i]) && Matches(Star(One(ok)), s[i..]);
        assert s[..i][0] == s[0];
      } else if forall i :: 0 <= i < |s| ==> ok(s[i]) {
        assert Matches(One(ok), s[..1]);
      }
    }
  }

  lemma {:induction false} RepeatMatches(ok: char -> bool, n: nat, s: string)
    ensures Matches(Repeat(One(ok), n), s) <==> |s| == n && forall i :: 0 <= i < n ==> ok(s[i])
  {
    if n > 0 {
      if Matches(Repeat(One(ok), n), s) {
        var x, y := ThenSplits(One(ok), Repeat(One(ok), n - 1), s);
        RepeatMatches(ok, n - 1, y);
      }
      if |s| == n && forall i :: 0 <= i < n ==> ok(s[i]) {
        RepeatMatches(ok, n - 1, s[1..]);
        ThenJoins(One(ok), Repeat(One(ok), n - 1), s[..1], s[1..]);
        assert s == s[..1] + s[1..];
      }
    }
  }

  /** One or more such characters. */
  lemma SomeMatch(ok: char -> bool, s: string)
    ensures Matches(Then(One(ok), Star(One(ok))), s) <==> s != "" && forall i :: 0 <= i < |s| ==> ok(s[i])
  {
    if Matches(Then(One(ok), Star(One(ok))), s) {
      var x, y := ThenSplits(One(ok), Star(One(ok)), s);
      StarOfOne(ok, y);
    }
    if s != "" && forall i :: 0 <= i < |s| ==> ok(s[i]) {
      StarOfOne(ok, s[1..]);
      ThenJoins(One(ok), Star(One(ok)), s[..1], s[1..]);
      assert s == s[..1] + s[1..];
    }
  }

  lemma {:induction false} LiteralMatches(word: string, s: string)
    ensures Matches(Literal(word), s) <==> s == word
  {
    if word != "" {
      var first, rest := One(Is(word[0])), Literal(word[1..]);
      if Matches(Literal(word), s) {
        var x, y := ThenSplits(first, rest, s);
        LiteralMatches(word[1..], y);
      }
      if s == word {
        LiteralMatches(word[1..], word[1..]);
        ThenJoins(first, rest, word[..1], word[1..]);
        assert word == word[..1] + word[1..];
      }
    }
  }

  /** One such character, and then what the rest matches. */
  lemma OneThen(ok: char -> bool, rest: Regex, s: string)
    ensures Matches(Then(One(ok), rest), s) <==> s != "" && ok(s[0]) && Matches(rest, s[1..])
  {
    if Matches(Then(One(ok), rest), s) {
      var x, y := ThenSplits(One(ok), rest, s);
      assert y == s[1..];
    }
    if s != "" && ok(s[0]) && Matches(rest, s[1..]) {
      ThenJoins(One(ok), rest, s[..1], s[1..]);
      assert s == s[..1] + s[1..];
    }
  }

  /** n such characters, and then what the rest matches. */
  lemma RepeatThen(ok: char -> bool, n: nat, rest: Regex, s: string)
    ensures Matches(Then(Repeat(One(ok), n), rest), s)
      <==> |s| >= n && (forall i :: 0 <= i < n ==> ok(s[i])) && Matches(rest, s[n..])
  {
    var many := Repeat(One(ok), n);
    if Matches(Then(many, rest), s) {
      var x, y := ThenSplits(many, rest, s);
      RepeatMatches(ok, n, x);
      assert y == s[n..];
    }
    if |s| >= n && (forall i :: 0 <= i < n ==> ok(s[i])) && Matches(rest, s[n..]) {
      RepeatMatches(ok, n, s[..n]);
      ThenJoins(many, rest, s[..n], s[n..]);
      assert s == s[..n] + s[n..];
    }
  }
}
