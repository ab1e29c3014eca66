/** Which version strings may name a release: the two regular expressions and the extra check of
    ReleaseVersion, against sections 2, 9 and 10 of Semantic Versioning 2.0.0. */
module ReleaseVersion {
  import opened Text
  import opened Options
  import opened Regexes

  // ---------------------------------------------------------------- regular expressions

  predicate NonZeroDigit(c: char) { '1' <= c <= '9' }

  predicate LowerHex(c: char) { IsDigit(c) || 'a' <= c <= 'f' }

  predicate IdentifierChar(c: char) {
    IsDigit(c) || 'A' <= c <= 'Z' || 'a' <= c <= 'z' || c == '-'
  }

  /** (0|[1-9][0-9]*) */
  const NUMBER := Or(One(Is('0')), Then(One(NonZeroDigit), Star(One(IsDigit))))

  /** [0-9A-Za-z-]+ */
  const IDENTIFIER := Then(One(IdentifierChar), Star(One(IdentifierChar)))

  /** ([0-9A-Za-z-]+\.)*[0-9A-Za-z-]+ */
  const DOTTED := Then(Star(Then(IDENTIFIER, One(Is('.')))), IDENTIFIER)

  const TAIL := Then(Optional(Then(One(Is('-')), DOTTED)), Optional(Then(One(Is('+')), DOTTED)))

  const RELEASE :=
    Then(NUMBER, Then(One(Is('.')), Then(NUMBER, Then(One(Is('.')), Then(NUMBER, TAIL)))))

  /** [-.][0-9]{time}-[0-9a-f]{hash}(\+incompatible)? */
  function TimeAndHash(time: nat, hash: nat, mark: string): Regex {
    Then(One((c: char) => c == '-' || c == '.'), Then(Repeat(One(IsDigit), time),
      Then(One(Is('-')), Then(Repeat(One(LowerHex), hash), Optional(Literal(mark))))))
  }

  predicate MatchesPseudo(s: string) {
    Matches(TimeAndHash(14, 12, "+incompatible"), s)
  }

  /** The second expression matches at the end of the string. */
  predicate IsPseudo(s: string) {
    exists i | 0 <= i <= |s| :: MatchesPseudo(s[i..])
  }

  // ---------------------------------------------------------------- the function

  predicate LeadingZero(part: string) {
    |part| > 1 && part[0] == '0' && AllDigits(part)
  }

  /** ReleaseVersion: the canonical version, or none when the value is rejected. */
  function Canonical(value: string): Option<string> {
    var v := TrimPrefix(value, "v");
    if !Matches(RELEASE, v) || IsPseudo(v) then None
    else
      var core := Cut(v, '+').0;
      match Cut(core, '-').1
      case None => Some(v)
      case Some(pre) => if exists part :: part in Split(pre, '.') && LeadingZero(part) then None else Some(v)
  }

  // ---------------------------------------------------------------- the standard

  datatype SemVer = SemVer(major: string, minor: string, patch: string, pre: seq<string>, build: seq<string>)

  /** Section 2: a non-negative integer without leading zeroes. */
  predicate NumericIdentifier(s: string) {
    s != "" && AllDigits(s) && (s[0] == '0' ==> |s| == 1)
  }

  /** Sections 9 and 10: a nonempty run of ASCII letters, digits and hyphens. */
  predicate Identifier(s: string) {
    s != "" && forall i :: 0 <= i < |s| ==>
      s[i] == '-' || '0' <= s[i] <= '9' || 'A' <= s[i] <= 'Z' || 'a' <= s[i] <= 'z'
  }

  predicate Identifiers(parts: seq<string>) {
    forall i :: 0 <= i < |parts| ==> Identifier(parts[i])
  }

  /** Section 9: a numeric pre-release identifier has no leading zeroes. */
  predicate Conforms(v: SemVer) {
    && NumericIdentifier(v.major) && NumericIdentifier(v.minor) && NumericIdentifier(v.patch)
    && Identifiers(v.pre) && Identifiers(v.build)
    && forall i :: 0 <= i < |v.pre| && AllDigits(v.pre[i]) ==> NumericIdentifier(v.pre[i])
  }

  function Suffix(mark: char, parts: seq<string>): string {
    if parts == [] then "" else [mark] + Join(parts, '.')
  }

  function Core(v: SemVer): string {
    v.major + ("." + (v.minor + ("." + v.patch)))
  }

  function Render(v: SemVer): string {
    Core(v) + Suffix('-', v.pre) + Suffix('+', v.build)
  }

  // ---------------------------------------------------------------- what the expressions match

  lemma NumberMatches(s: string)
    ensures Matches(NUMBER, s) <==> NumericIdentifier(s)
  {
    var more := Star(One(IsDigit));
    if NumericIdentifier(s) && s[0] != '0' {
      StarOfOne(IsDigit, s[1..]);
      assert Matches(One(NonZeroDigit), [s[0]]);
      ThenJoins(One(NonZeroDigit), more, [s[0]], s[1..]);
      assert s == [s[0]] + s[1..];
    } else if Matches(Then(One(NonZeroDigit), more), s) {
      var x, y := ThenSplits(One(NonZeroDigit), more, s);
      StarOfOne(IsDigit, y);
    }
  }

  lemma IdentifierMatches(s: string)
    ensures Matches(IDENTIFIER, s) <==> Identifier(s)
  {
    var more := Star(One(IdentifierChar));
    if Identifier(s) {
      StarOfOne(IdentifierChar, s[1..]);
      assert Matches(One(IdentifierChar), [s[0]]);
      ThenJoins(One(IdentifierChar), more, [s[0]], s[1..]);
      assert s == [s[0]] + s[1..];
    } else if Matches(IDENTIFIER, s) {
      var x, y := ThenSplits(One(IdentifierChar), more, s);
      StarOfOne(IdentifierChar, y);
    }
  }

  lemma {:induction false} DottedAccepts(parts: seq<string>)
    requires |parts| > 0 && Identifiers(parts)
    ensures Matches(DOTTED, Join(parts, '.'))
  {
    var link := Then(IDENTIFIER, One(Is('.')));
    IdentifierMatches(parts[0]);
    if |parts| == 1 {
      ThenJoins(Star(link), IDENTIFIER, "", parts[0]);
      assert "" + parts[0] == parts[0];
    } else {
      DottedAccepts(parts[1..]);
      var x, y := ThenSplits(Star(link), IDENTIFIER, Join(parts[1..], '.'));
      var head := parts[0] + ".";
      ThenJoins(IDENTIFIER, One(Is('.')), parts[0], ".");
      assert (head + x)[..|head|] == head && (head + x)[|head|..] == x;
      assert Matches(Star(link), head + x);
      ThenJoins(Star(link), IDENTIFIER, head + x, y);
      assert Join(parts, '.') == parts[0] + ['.'] + (x + y);
      assert parts[0] + ['.'] + (x + y) == (head + x) + y;
    }
  }

  /** A run of "identifier." followed by an identifier is a list of identifiers joined by dots. */
  lemma {:induction false} DottedParts(links: string, last: string) returns (parts: seq<string>)
    requires Matches(Star(Then(IDENTIFIER, One(Is('.')))), links) && Identifier(last)
    ensures |parts| > 0 && Identifiers(parts) && Join(parts, '.') == links + last
    decreases |links|
  {
    var link := Then(IDENTIFIER, One(Is('.')));
    if links == "" {
      parts := [last];
      assert "" + last == last;
    } else {
      var i :| 0 < i <= |links| && Matches(link, links[..i]) && Matches(Star(link), links[i..]);
      var x, y := ThenSplits(IDENTIFIER, One(Is('.')), links[..i]);
      IdentifierMatches(x);
      var rest := DottedParts(links[i..], last);
      parts := [x] + rest;
      OneMorePart(x, rest, links, i, last);
    }
  }

  lemma OneMorePart(x: string, rest: seq<string>, links: string, i: nat, last: string)
    requires i <= |links| && links[..i] == x + "." && rest != [] && Join(rest, '.') == links[i..] + last
    ensures Join([x] + rest, '.') == links + last
  {
    assert ([x] + rest)[1..] == rest && links == links[..i] + links[i..];
  }

  lemma SuffixMatches(mark: char, s: string) returns (parts: seq<string>)
    requires Matches(Optional(Then(One(Is(mark)), DOTTED)), s)
    ensures Identifiers(parts) && s == Suffix(mark, parts)
  {
    if s == "" {
      parts := [];
    } else {
      var x, y := ThenSplits(One(Is(mark)), DOTTED, s);
      var links, last := ThenSplits(Star(Then(IDENTIFIER, One(Is('.')))), IDENTIFIER, y);
      IdentifierMatches(last);
      parts := DottedParts(links, last);
    }
  }

  lemma SuffixAccepts(mark: char, parts: seq<string>)
    requires Identifiers(parts)
    ensures Matches(Optional(Then(One(Is(mark)), DOTTED)), Suffix(mark, parts))
  {
    if parts != [] {
      DottedAccepts(parts);
      ThenJoins(One(Is(mark)), DOTTED, [mark], Join(parts, '.'));
    }
  }

  predicate ReleaseShape(v: SemVer) {
    && NumericIdentifier(v.major) && NumericIdentifier(v.minor) && NumericIdentifier(v.patch)
    && Identifiers(v.pre) && Identifiers(v.build)
  }

  lemma TailAccepts(v: SemVer)
    requires ReleaseShape(v)
    ensures Matches(TAIL, Suffix('-', v.pre) + Suffix('+', v.build))
  {
    SuffixAccepts('-', v.pre);
    SuffixAccepts('+', v.build);
    ThenJoins(Optional(Then(One(Is('-')), DOTTED)), Optional(Then(One(Is('+')), DOTTED)),
              Suffix('-', v.pre), Suffix('+', v.build));
  }

  /** "number." in front of anything the rest matches. */
  lemma NumberDotAccepts(n: string, rest: Regex, s: string)
    requires NumericIdentifier(n) && Matches(rest, s)
    ensures Matches(Then(NUMBER, Then(One(Is('.')), rest)), n + ("." + s))
  {
    NumberMatches(n);
    ThenJoins(One(Is('.')), rest, ".", s);
    ThenJoins(NUMBER, Then(One(Is('.')), rest), n, "." + s);
  }

  lemma NumberDotSplits(rest: Regex, s: string) returns (n: string, y: string)
    requires Matches(Then(NUMBER, Then(One(Is('.')), rest)), s)
    ensures NumericIdentifier(n) && Matches(rest, y) && s == n + ("." + y)
  {
    var x, z := ThenSplits(NUMBER, Then(One(Is('.')), rest), s);
    NumberMatches(x);
    var dot, w := ThenSplits(One(Is('.')), rest, z);
    n, y := x, w;
  }

  /** The first expression matches exactly the renderings of release shapes. */
  lemma ReleaseAccepts(v: SemVer)
    requires ReleaseShape(v)
    ensures Matches(RELEASE, Render(v))
  {
    var tail := Suffix('-', v.pre) + Suffix('+', v.build);
    TailAccepts(v);
    NumberMatches(v.patch);
    ThenJoins(NUMBER, TAIL, v.patch, tail);
    NumberDotAccepts(v.minor, Then(NUMBER, TAIL), v.patch + tail);
    NumberDotAccepts(v.major, Then(NUMBER, Then(One(Is('.')), Then(NUMBER, TAIL))), v.minor + ("." + (v.patch + tail)));
    assert Render(v) == v.major + ("." + (v.minor + ("." + (v.patch + tail))));
  }

  lemma ReleaseParses(s: string) returns (v: SemVer)
    requires Matches(RELEASE, s)
    ensures ReleaseShape(v) && Render(v) == s
  {
    var major, s1 := NumberDotSplits(Then(NUMBER, Then(One(Is('.')), Then(NUMBER, TAIL))), s);
    var minor, s2 := NumberDotSplits(Then(NUMBER, TAIL), s1);
    var patch, s3 := ThenSplits(NUMBER, TAIL, s2);
    NumberMatches(patch);
    var p, b := ThenSplits(Optional(Then(One(Is('-')), DOTTED)), Optional(Then(One(Is('+')), DOTTED)), s3);
    var pre := SuffixMatches('-', p);
    var build := SuffixMatches('+', b);
    v := SemVer(major, minor, patch, pre, build);
    RenderInParts(v);
  }

  lemma RenderInParts(v: SemVer)
    ensures Render(v) == v.major + ("." + (v.minor + ("." + (v.patch + (Suffix('-', v.pre) + Suffix('+', v.build))))))
  {
  }

  // ---------------------------------------------------------------- where Cut and Split land

  lemma {:induction false} JoinHolds(parts: seq<string>, c: char, x: char)
    requires |parts| > 0 && x != c && forall i :: 0 <= i < |parts| ==> x !in parts[i]
    ensures x !in Join(parts, c)
  {
    if |parts| > 1 {
      JoinHolds(parts[1..], c, x);
    }
  }

  lemma CorePart(v: SemVer)
    requires ReleaseShape(v)
    ensures Cut(Render(v), '+').0 == Core(v) + Suffix('-', v.pre)
  {
    var core := Core(v) + Suffix('-', v.pre);
    if v.pre != [] {
      JoinHolds(v.pre, '.', '+');
    }
    if v.build == [] {
      assert Render(v) == core;
      CutWithoutSeparator(core, '+');
    } else {
      assert Render(v) == core + ['+'] + Join(v.build, '.');
      CutAtSeparator(core, '+', Join(v.build, '.'));
    }
  }

  /** The code looks at exactly the pre-release identifiers. */
  lemma PreReleasePart(v: SemVer)
    requires ReleaseShape(v)
    ensures var pre := Cut(Cut(Render(v), '+').0, '-').1;
      if v.pre == [] then pre == None else pre.Some? && Split(pre.value, '.') == v.pre
  {
    CorePart(v);
    if v.pre == [] {
      assert Core(v) + "" == Core(v);
      CutWithoutSeparator(Core(v), '-');
    } else {
      assert Core(v) + Suffix('-', v.pre) == Core(v) + ['-'] + Join(v.pre, '.');
      CutAtSeparator(Core(v), '-', Join(v.pre, '.'));
      SplitOfJoin(v.pre, '.');
    }
  }

  lemma LeadingZeroesDecide(v: SemVer)
    requires ReleaseShape(v)
    ensures (exists part :: part in v.pre && LeadingZero(part)) <==> !Conforms(v)
  {
    forall part | part in v.pre && LeadingZero(part) ensures !Conforms(v) {
      var i :| 0 <= i < |v.pre| && v.pre[i] == part;
      assert AllDigits(v.pre[i]) && !NumericIdentifier(v.pre[i]);
    }
    forall i | 0 <= i < |v.pre| && AllDigits(v.pre[i]) && !LeadingZero(v.pre[i])
      ensures NumericIdentifier(v.pre[i])
    {
      assert Identifier(v.pre[i]);
    }
  }

  lemma ShapeDecides(v: SemVer)
    requires ReleaseShape(v) && !IsPseudo(Render(v)) && !("v" <= Render(v))
    ensures Canonical(Render(v)) == if Conforms(v) then Some(Render(v)) else None
  {
    ReleaseAccepts(v);
    PreReleasePart(v);
    LeadingZeroesDecide(v);
  }

  lemma RenderStartsWithDigit(v: SemVer)
    requires ReleaseShape(v)
    ensures Render(v) != "" && IsDigit(Render(v)[0])
  {
    assert Render(v)[0] == v.major[0];
  }

  ghost predicate Names(v: SemVer, s: string) {
    Conforms(v) && Render(v) == s
  }

  // ---------------------------------------------------------------- the theorems

  /** A value is accepted exactly when, after one optional leading v, it is a Semantic Version and not a
      Go pseudo-version; the answer is the value without that v. */
  lemma AcceptsExactlySemVer(value: string)
    ensures Canonical(value).Some?
      <==> (exists v: SemVer :: Names(v, TrimPrefix(value, "v"))) && !IsPseudo(TrimPrefix(value, "v"))
    ensures Canonical(value).Some? ==> Canonical(value).value == TrimPrefix(value, "v")
  {
    var s := TrimPrefix(value, "v");
    if Matches(RELEASE, s) && !IsPseudo(s) {
      var v := ReleaseParses(s);
      RenderStartsWithDigit(v);
      ShapeDecides(v);
      assert Canonical(value) == Canonical(s);
      forall w: SemVer | Names(w, s) ensures Canonical(value).Some? {
        RenderStartsWithDigit(w);
        ShapeDecides(w);
      }
      assert Canonical(value).Some? ==> Names(v, s);
    } else {
      forall w: SemVer | Names(w, s) ensures Matches(RELEASE, s) {
        ReleaseAccepts(w);
      }
    }
  }

  /** Canonical versions are fixed points: resolving again changes nothing. */
  lemma CanonicalIsIdempotent(value: string)
    requires Canonical(value).Some?
    ensures Canonical(Canonical(value).value) == Canonical(value)
  {
    var s := TrimPrefix(value, "v");
    var v := ReleaseParses(s);
    RenderStartsWithDigit(v);
    assert TrimPrefix(s, "v") == s;
  }

  /** A version string has one reading only. */
  lemma RenderIsInjective(v: SemVer, w: SemVer)
    requires ReleaseShape(v) && ReleaseShape(w) && Render(v) == Render(w)
    ensures v == w
  {
    CorePart(v);
    CorePart(w);
    PreReleasePart(v);
    PreReleasePart(w);
    BuildPart(v);
    BuildPart(w);
    NumbersPart(v);
    NumbersPart(w);
  }

  lemma BuildPart(v: SemVer)
    requires ReleaseShape(v)
    ensures var build := Cut(Render(v), '+').1;
      if v.build == [] then build == None else build.Some? && Split(build.value, '.') == v.build
  {
    var core := Core(v) + Suffix('-', v.pre);
    if v.pre != [] {
      JoinHolds(v.pre, '.', '+');
    }
    if v.build == [] {
      assert Render(v) == core;
      CutWithoutSeparator(core, '+');
    } else {
      assert Render(v) == core + ['+'] + Join(v.build, '.');
      CutAtSeparator(core, '+', Join(v.build, '.'));
      SplitOfJoin(v.build, '.');
    }
  }

  lemma NumbersPart(v: SemVer)
    requires ReleaseShape(v)
    ensures Split(Cut(Core(v) + Suffix('-', v.pre), '-').0, '.') == [v.major, v.minor, v.patch]
  {
    if v.pre == [] {
      assert Core(v) + "" == Core(v);
      CutWithoutSeparator(Core(v), '-');
    } else {
      assert Core(v) + Suffix('-', v.pre) == Core(v) + ['-'] + Join(v.pre, '.');
      CutAtSeparator(Core(v), '-', Join(v.pre, '.'));
    }
    var parts := [v.major, v.minor, v.patch];
    assert parts[1..] == [v.minor, v.patch] && [v.minor, v.patch][1..] == [v.patch];
    assert Join([v.minor, v.patch], '.') == v.minor + ("." + v.patch);
    assert Join(parts, '.') == v.major + ("." + (v.minor + ("." + v.patch)));
    SplitOfJoin(parts, '.');
  }

  // ---------------------------------------------------------------- pseudo-versions

  /** A mark, a time of so many digits, a hyphen, so many characters of a commit hash, and perhaps a word. */
  predicate TimeAndHashEnd(s: string, time: nat, hash: nat, word: string) {
    && |s| >= time + hash + 2 && s[0] in ['-', '.'] && s[time + 1] == '-'
    && (forall i :: 1 <= i < time + 1 ==> '0' <= s[i] <= '9')
    && (forall i :: time + 2 <= i < time + hash + 2 ==> '0' <= s[i] <= '9' || 'a' <= s[i] <= 'f')
    && (|s| == time + hash + 2 || s[time + hash + 2..] == word)
  }

  lemma HashMatches(hash: nat, mark: string, s: string)
    ensures Matches(Then(One(Is('-')), Then(Repeat(One(LowerHex), hash), Optional(Literal(mark)))), s)
      <==> && |s| >= hash + 1 && s[0] == '-'
           && (forall i :: 1 <= i < hash + 1 ==> '0' <= s[i] <= '9' || 'a' <= s[i] <= 'f')
           && (|s| == hash + 1 || s[hash + 1..] == mark)
  {
    var more := Optional(Literal(mark));
    OneThen(Is('-'), Then(Repeat(One(LowerHex), hash), more), s);
    if s != "" {
      RepeatThen(LowerHex, hash, more, s[1..]);
      if |s| >= hash + 1 {
        assert s[1..][hash..] == s[hash + 1..];
        LiteralMatches(mark, s[hash + 1..]);
      }
    }
  }

  lemma TimeAndHashMatches(time: nat, hash: nat, mark: string, s: string)
    ensures Matches(TimeAndHash(time, hash, mark), s) <==> TimeAndHashEnd(s, time, hash, mark)
  {
    var end := Then(One(Is('-')), Then(Repeat(One(LowerHex), hash), Optional(Literal(mark))));
    OneThen((c: char) => c == '-' || c == '.', Then(Repeat(One(IsDigit), time), end), s);
    if s != "" {
      RepeatThen(IsDigit, time, end, s[1..]);
      if |s| > time {
        var t := s[time + 1..];
        assert s[1..][time..] == t;
        HashMatches(hash, mark, t);
        assert |t| >= hash + 1 ==> t[hash + 1..] == s[time + hash + 2..];
      }
    }
  }

  lemma PseudoMatches(s: string)
    ensures MatchesPseudo(s) <==> TimeAndHashEnd(s, 14, 12, "+incompatible")
  {
    TimeAndHashMatches(14, 12, "+incompatible", s);
  }

  /** The second expression finds exactly the strings that end with a time of fourteen digits and a hash of twelve. */
  lemma PseudoExactly(s: string)
    ensures IsPseudo(s) <==> exists i :: 0 <= i <= |s| && TimeAndHashEnd(s[i..], 14, 12, "+incompatible")
  {
    forall i | 0 <= i <= |s| ensures MatchesPseudo(s[i..]) <==> TimeAndHashEnd(s[i..], 14, 12, "+incompatible") {
      PseudoMatches(s[i..]);
    }
  }
}
