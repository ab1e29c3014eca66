/** checksumFor: the digest a SHA256SUMS text gives for one asset. */
module Checksum {
  import opened Hex
  import opened Text
  import opened Options

  datatype Problem = Missing | Duplicate | Malformed | Invalid

  datatype Result = Ok(digest: Bytes) | Err(problem: Problem)

  const DIGEST_SIZE := 32

  /** unicode.IsSpace */
  predicate IsSpace(c: char) {
    || '\t' <= c <= '\r' || c == ' ' || c == '\U{85}' || c == '\U{A0}' || c == '\U{1680}'
    || '\U{2000}' <= c <= '\U{200a}' || c == '\U{2028}' || c == '\U{2029}' || c == '\U{202f}'
    || c == '\U{205f}' || c == '\U{3000}'
  }

  function SkipSpace(s: string): (t: string)
    ensures |t| <= |s| && (t != "" ==> !IsSpace(t[0]))
  {
    if s == "" || !IsSpace(s[0]) then s else SkipSpace(s[1..])
  }

  function Word(s: string): (w: string)
    ensures w <= s && (s != "" && !IsSpace(s[0]) ==> w != "")
  {
    if s == "" || IsSpace(s[0]) then "" else [s[0]] + Word(s[1..])
  }

  /** strings.Fields */
  function Fields(s: string): seq<string>
    decreases |s|
  {
    var t := SkipSpace(s);
    if t == "" then [] else [Word(t)] + Fields(t[|Word(t)|..])
  }

  predicate NamedBy(field: string, asset: string) {
    TrimPrefix(field, "*") == asset
  }

  /** The line has a second or last field that is the asset, with or without a star. */
  predicate Naming(line: string, asset: string) {
    var f := Fields(line);
    |f| >= 2 && (NamedBy(f[1], asset) || NamedBy(f[|f| - 1], asset))
  }

  function Digest(line: string): Option<Bytes> {
    var f := Fields(line);
    if |f| != 2 then None
    else
      var d := Decode(f[0]);
      if d.Some? && |d.value| == DIGEST_SIZE then d else None
  }

  predicate FirstNaming(lines: seq<string>, asset: string, i: nat) {
    i < |lines| && Naming(lines[i], asset) && forall j :: 0 <= j < i ==> !Naming(lines[j], asset)
  }

  predicate OnlyNaming(lines: seq<string>, asset: string, i: nat) {
    && i < |lines| && Naming(lines[i], asset)
    && forall j :: 0 <= j < |lines| && j != i ==> !Naming(lines[j], asset)
  }

  /** A naming line by itself: two fields, the first a SHA-256 digest in hex. */
  function LineResult(line: string): Result {
    if |Fields(line)| != 2 then Err(Malformed)
    else match Digest(line)
      case Some(digest) => Ok(digest)
      case None => Err(Invalid)
  }

  method ReadLine(line: string) returns (r: Result)
    ensures r == LineResult(line)
  {
    var fields := Fields(line);
    if |fields| != 2 {
      return Err(Malformed);
    }
    var decoded := Decode(fields[0]);
    if decoded.None? || |decoded.value| != DIGEST_SIZE {
      return Err(Invalid);
    }
    r := Ok(decoded.value);
  }

  /** What the first naming line makes of the whole text. */
  ghost predicate Answers(lines: seq<string>, asset: string, r: Result) {
    && (r == Err(Missing) <==> forall line :: line in lines ==> !Naming(line, asset))
    && forall i: nat :: FirstNaming(lines, asset, i) ==> r == FromFirst(lines, asset, i)
  }

  ghost function FromFirst(lines: seq<string>, asset: string, i: nat): Result
    requires i < |lines|
  {
    if LineResult(lines[i]).Ok? && !OnlyNaming(lines, asset, i) then Err(Duplicate) else LineResult(lines[i])
  }

  lemma FirstDecides(lines: seq<string>, asset: string, i: nat, r: Result)
    requires FirstNaming(lines, asset, i) && r == FromFirst(lines, asset, i)
    ensures Answers(lines, asset, r)
  {
    assert lines[i] in lines;
    forall j: nat | FirstNaming(lines, asset, j) ensures j == i {}
  }

  /** The lines before n: none names the asset, or only `first` does, and well. */
  ghost predicate SoFar(lines: seq<string>, asset: string, n: nat, digest: Option<Bytes>, first: nat) {
    && n <= |lines|
    && if digest.None? then forall j :: 0 <= j < n ==> !Naming(lines[j], asset)
       else
         && first < n && Naming(lines[first], asset) && LineResult(lines[first]) == Ok(digest.value)
         && forall j :: 0 <= j < n && j != first ==> !Naming(lines[j], asset)
  }

  lemma NamingLine(lines: seq<string>, asset: string, n: nat, digest: Option<Bytes>, first: nat)
    requires SoFar(lines, asset, n, digest, first) && n < |lines| && Naming(lines[n], asset)
    ensures digest.Some? ==> Answers(lines, asset, Err(Duplicate))
    ensures digest.None? ==>
              if LineResult(lines[n]).Err? then Answers(lines, asset, LineResult(lines[n]))
              else SoFar(lines, asset, n + 1, Some(LineResult(lines[n]).digest), n)
  {
    if digest.Some? {
      FirstDecides(lines, asset, first, Err(Duplicate));
    } else if LineResult(lines[n]).Err? {
      FirstDecides(lines, asset, n, LineResult(lines[n]));
    }
  }

  lemma OtherLine(lines: seq<string>, asset: string, n: nat, digest: Option<Bytes>, first: nat)
    requires SoFar(lines, asset, n, digest, first) && n < |lines| && !Naming(lines[n], asset)
    ensures SoFar(lines, asset, n + 1, digest, first)
  {
  }

  lemma AllLines(lines: seq<string>, asset: string, digest: Option<Bytes>, first: nat)
    requires SoFar(lines, asset, |lines|, digest, first)
    ensures Answers(lines, asset, if digest.None? then Err(Missing) else Ok(digest.value))
  {
    if digest.Some? {
      FirstDecides(lines, asset, first, Ok(digest.value));
    }
  }

  method ChecksumFor(body: string, asset: string) returns (r: Result)
    ensures Answers(Split(body, '\n'), asset, r)
  {
    var lines := Split(body, '\n');
    var digest: Option<Bytes> := None;
    ghost var first: nat := 0;
    var n := 0;
    while n < |lines|
      invariant 0 <= n <= |lines| && SoFar(lines, asset, n, digest, first)
    {
      if Naming(lines[n], asset) {
        NamingLine(lines, asset, n, digest, first);
        if digest.Some? {
          return Err(Duplicate);
        }
        r := ReadLine(lines[n]);
        if r.Err? {
          return;
        }
        digest, first := Some(r.digest), n;
      } else {
        OtherLine(lines, asset, n, digest, first);
      }
      n := n + 1;
    }
    AllLines(lines, asset, digest, first);
    if digest.None? {
      return Err(Missing);
    }
    r := Ok(digest.value);
  }

  lemma {:induction false} SomeLineIsFirst(lines: seq<string>, asset: string, n: nat) returns (i: nat)
    requires n < |lines| && Naming(lines[n], asset)
    ensures FirstNaming(lines, asset, i)
  {
    if j: nat :| j < n && Naming(lines[j], asset) {
      i := SomeLineIsFirst(lines, asset, j);
    } else {
      i := n;
    }
  }

  /** Success is exactly one line naming the asset, and that line well formed; the answer is its digest. */
  lemma SucceedsExactly(lines: seq<string>, asset: string, r: Result)
    requires Answers(lines, asset, r)
    ensures r.Ok? <==> exists i: nat :: OnlyNaming(lines, asset, i) && Digest(lines[i]).Some?
    ensures forall i: nat :: r.Ok? && OnlyNaming(lines, asset, i) ==> Digest(lines[i]) == Some(r.digest)
  {
    if r.Ok? {
      var n: nat :| n < |lines| && Naming(lines[n], asset);
      var i := SomeLineIsFirst(lines, asset, n);
      assert OnlyNaming(lines, asset, i);
    }
    forall i: nat | OnlyNaming(lines, asset, i) ensures FirstNaming(lines, asset, i) {}
  }

  // ---------------------------------------------------------------- a published file reads back

  datatype Entry = Entry(digest: Bytes, name: string)

  /** A line as sha256sum writes it. */
  function Line(e: Entry): string {
    Encode(e.digest) + "  " + e.name
  }

  /** The lines of the file, with what follows the last newline. */
  function Published(entries: seq<Entry>): (lines: seq<string>)
    ensures |lines| == |entries| + 1
  {
    if entries == [] then [""] else [Line(entries[0])] + Published(entries[1..])
  }

  predicate Plain(s: string) {
    s != "" && s[0] != '*' && forall i :: 0 <= i < |s| ==> !IsSpace(s[i])
  }

  lemma {:induction false} WordEnds(w: string, rest: string)
    requires forall i :: 0 <= i < |w| ==> !IsSpace(w[i])
    requires rest != "" ==> IsSpace(rest[0])
    ensures Word(w + rest) == w
  {
    if w == "" {
      assert w + rest == rest;
    } else {
      assert (w + rest)[1..] == w[1..] + rest;
      WordEnds(w[1..], rest);
      assert [w[0]] + w[1..] == w;
    }
  }

  lemma {:induction false} HexIsPlain(bytes: Bytes)
    ensures forall c :: c in Encode(bytes) ==> !IsSpace(c) && c != '*'
  {
    if bytes != [] {
      HexIsPlain(bytes[1..]);
    }
  }

  lemma LineFields(e: Entry)
    requires Plain(e.name) && e.digest != []
    ensures Fields(Line(e)) == [Encode(e.digest), e.name]
  {
    var h := Encode(e.digest);
    HexIsPlain(e.digest);
    assert h != "" && h[0] in h;
    assert Line(e) == h + ("  " + e.name);
    assert forall i :: 0 <= i < |h| ==> h[i] in h;
    WordEnds(h, "  " + e.name);
    assert Line(e)[|h|..] == "  " + e.name;
    LastField(e.name);
  }

  lemma LastField(name: string)
    requires Plain(name)
    ensures Fields("  " + name) == [name]
  {
    var after := "  " + name;
    assert after[1..] == " " + name && after[1..][1..] == name;
    assert SkipSpace(after[1..][1..]) == name && SkipSpace(after[1..]) == SkipSpace(after[1..][1..]);
    WordEnds(name, "");
    assert name + "" == name;
    assert Fields(name[|name|..]) == [];
  }

  lemma LineNames(e: Entry, asset: string)
    requires Plain(e.name) && |e.digest| == DIGEST_SIZE && Plain(asset)
    ensures Naming(Line(e), asset) <==> asset == e.name
    ensures Digest(Line(e)) == Some(e.digest)
  {
    LineFields(e);
    DecodeEncode(e.digest);
    assert !("*" <= e.name);
  }

  ghost predicate Publishable(entries: seq<Entry>) {
    && (forall i :: 0 <= i < |entries| ==> Plain(entries[i].name) && |entries[i].digest| == DIGEST_SIZE)
    && forall i, j :: 0 <= i < j < |entries| ==> entries[i].name != entries[j].name
  }

  lemma PublishedNames(entries: seq<Entry>, j: nat, asset: string)
    requires Publishable(entries) && Plain(asset) && j < |entries|
    ensures Naming(Published(entries)[j], asset) <==> asset == entries[j].name
    ensures Digest(Published(entries)[j]) == Some(entries[j].digest)
    ensures '\n' !in Published(entries)[j]
  {
    PublishedLine(entries, j);
    assert Plain(entries[j].name) && |entries[j].digest| == DIGEST_SIZE;
    LineNames(entries[j], asset);
    LineIsOneLine(entries[j]);
  }

  lemma LineIsOneLine(e: Entry)
    requires Plain(e.name)
    ensures '\n' !in Line(e)
  {
    HexIsPlain(e.digest);
  }

  lemma OnlyItsLineNames(entries: seq<Entry>, k: nat)
    requires Publishable(entries) && k < |entries|
    ensures OnlyNaming(Published(entries), entries[k].name, k)
    ensures forall j :: 0 <= j < |Published(entries)| ==> '\n' !in Published(entries)[j]
  {
    PublishedEnd(entries);
    forall j | 0 <= j < |Published(entries)|
      ensures '\n' !in Published(entries)[j] && (Naming(Published(entries)[j], entries[k].name) <==> j == k)
    {
      if j < |entries| {
        PublishedNames(entries, j, entries[k].name);
      }
    }
  }

  /** A file as sha256sum writes it gives every asset its own digest. */
  lemma PublishedTextIsRead(entries: seq<Entry>, k: nat, r: Result)
    requires Publishable(entries) && k < |entries|
    requires Answers(Split(Join(Published(entries), '\n'), '\n'), entries[k].name, r)
    ensures r == Ok(entries[k].digest)
  {
    var lines := Published(entries);
    OnlyItsLineNames(entries, k);
    SplitOfJoin(lines, '\n');
    PublishedNames(entries, k, entries[k].name);
    SucceedsExactly(lines, entries[k].name, r);
  }

  lemma {:induction false} PublishedLine(entries: seq<Entry>, j: nat)
    requires j < |entries|
    ensures Published(entries)[j] == Line(entries[j])
  {
    if j > 0 {
      PublishedLine(entries[1..], j - 1);
    } else if |entries| > 1 {
      PublishedLine(entries[1..], 0);
    }
  }

  lemma {:induction false} PublishedEnd(entries: seq<Entry>)
    ensures Published(entries)[|entries|] == ""
  {
    if entries != [] {
      PublishedEnd(entries[1..]);
    }
  }

  // ---------------------------------------------------------------- fields and lines

  /** The 25 characters Go takes for space. */
  const SPACES := {9, 10, 11, 12, 13, 32, 0x85, 0xA0, 0x1680, 0x2000, 0x2001, 0x2002, 0x2003, 0x2004, 0x2005, 0x2006,
    0x2007, 0x2008, 0x2009, 0x200A, 0x2028, 0x2029, 0x202F, 0x205F, 0x3000}

  lemma SpacesExactly(c: char)
    ensures IsSpace(c) <==> c as int in SPACES
  {
  }

  /** Space in front is skipped, and a run of other characters up to space or the end is one field: this determines the
      fields of every line. */
  lemma FieldsAreTheRuns(c: char, w: string, rest: string)
    requires IsSpace(c)
    requires w != "" && (forall i :: 0 <= i < |w| ==> !IsSpace(w[i])) && (rest != "" ==> IsSpace(rest[0]))
    ensures Fields("") == [] && Fields([c] + rest) == Fields(rest)
    ensures Fields(w + rest) == [w] + Fields(rest)
  {
    assert ([c] + rest)[1..] == rest;
    assert SkipSpace([c] + rest) == SkipSpace(rest);
    WordEnds(w, rest);
    assert SkipSpace(w + rest) == w + rest && (w + rest)[|w|..] == rest;
  }

  /** A field names the asset when it is the asset, or the asset behind one star. */
  lemma NamedByExactly(field: string, asset: string)
    ensures NamedBy(field, asset) <==> field == "*" + asset || (field == asset && (asset == "" || asset[0] != '*'))
  {
    if "*" <= field {
      assert field == "*" + field[1..];
    }
  }

  /** A naming line is malformed unless it has two fields, good when the first is 64 hexadecimal digits, in either case,
      and invalid otherwise. */
  lemma LineResultExactly(line: string, digest: Bytes)
    ensures LineResult(line) == Err(Malformed) <==> |Fields(line)| != 2
    ensures LineResult(line) == Ok(digest)
      <==> |Fields(line)| == 2 && |digest| == 32 && Spells(Fields(line)[0], digest)
    ensures LineResult(line).Ok? || LineResult(line) in {Err(Malformed), Err(Invalid)}
  {
    if |Fields(line)| == 2 {
      DecodesExactly(Fields(line)[0], digest);
    }
  }
}
