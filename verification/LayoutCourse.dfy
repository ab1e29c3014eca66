/** What the layout migration does said about keys as paths and about the pattern as written: where objects go,
    what is counted, and when a limit stops the run. */
module LayoutCourse {
  import opened Text
  import opened Options
  import opened Regexes
  import opened LayoutMigration
  import Order

  // ---------------------------------------------------------------- the pattern

  function AtLeastOne(ok: char -> bool): Regex {
    Then(One(ok), Star(One(ok)))
  }

  function Digit(): char -> bool {
    (c: char) => '0' <= c <= '9'
  }

  function LowerOrDigit(): char -> bool {
    (c: char) => 'a' <= c <= 'z' || '0' <= c <= '9'
  }

  /** \d{serial}v\d+\.[a-z0-9]+ */
  function FilePattern(serial: nat): Regex {
    Then(Repeat(One(Digit()), serial), Then(One(Is('v')), Then(AtLeastOne(Digit()),
      Then(One(Is('.')), AtLeastOne(LowerOrDigit())))))
  }

  /** (\d{month})/ and then a file name; legacyOldStyleKeyRE has month 4 and serial 7. */
  function LegacyPattern(month: nat, serial: nat): Regex {
    Then(Repeat(One(Digit()), month), Then(One(Is('/')), FilePattern(serial)))
  }

  /** A file name with this serial number, version and extension. */
  predicate FileParts(s: string, serial: nat, version: string, ext: string) {
    && |s| >= serial && AllDigits(s[..serial]) && s[serial..] == "v" + (version + ("." + ext))
    && version != "" && AllDigits(version)
    && ext != "" && forall i :: 0 <= i < |ext| ==> ExtensionChar(ext[i])
  }

  lemma FileMatches(serial: nat, s: string) returns (version: string, ext: string)
    requires Matches(FilePattern(serial), s)
    ensures FileParts(s, serial, version, ext)
  {
    var end := Then(One(Is('.')), AtLeastOne(LowerOrDigit()));
    RepeatThen(Digit(), serial, Then(One(Is('v')), Then(AtLeastOne(Digit()), end)), s);
    var t := s[serial..];
    OneThen(Is('v'), Then(AtLeastOne(Digit()), end), t);
    var x, y := ThenSplits(AtLeastOne(Digit()), end, t[1..]);
    SomeMatch(Digit(), x);
    OneThen(Is('.'), AtLeastOne(LowerOrDigit()), y);
    SomeMatch(LowerOrDigit(), y[1..]);
    version, ext := x, y[1..];
    assert t == "v" + t[1..] && y == "." + ext;
  }

  lemma VersionIsMatched(version: string, ext: string)
    requires version != "" && AllDigits(version) && ext != "" && forall i :: 0 <= i < |ext| ==> ExtensionChar(ext[i])
    ensures Matches(Then(AtLeastOne(Digit()), Then(One(Is('.')), AtLeastOne(LowerOrDigit()))), version + ("." + ext))
  {
    SomeMatch(LowerOrDigit(), ext);
    ThenJoins(One(Is('.')), AtLeastOne(LowerOrDigit()), ".", ext);
    SomeMatch(Digit(), version);
    ThenJoins(AtLeastOne(Digit()), Then(One(Is('.')), AtLeastOne(LowerOrDigit())), version, "." + ext);
  }

  lemma FileIsMatched(serial: nat, s: string, version: string, ext: string)
    requires FileParts(s, serial, version, ext)
    ensures Matches(FilePattern(serial), s)
  {
    var end := Then(AtLeastOne(Digit()), Then(One(Is('.')), AtLeastOne(LowerOrDigit())));
    VersionIsMatched(version, ext);
    ThenJoins(One(Is('v')), end, "v", version + ("." + ext));
    RepeatThen(Digit(), serial, Then(One(Is('v')), end), s);
  }

  lemma MonthThen(month: nat, rest: Regex, key: string)
    ensures Matches(Then(Repeat(One(Digit()), month), Then(One(Is('/')), rest)), key)
      <==> && |key| > month && (forall i :: 0 <= i < month ==> '0' <= key[i] <= '9') && key[month] == '/'
           && Matches(rest, key[month + 1..])
  {
    RepeatThen(Digit(), month, Then(One(Is('/')), rest), key);
    if |key| > month {
      OneThen(Is('/'), rest, key[month..]);
      assert key[month..][1..] == key[month + 1..];
    }
  }

  lemma ShapeIsAFile(l: Legacy)
    requires Shape(l)
    ensures FileParts(l.stem + l.ext, 7, l.stem[8..], l.ext[1..])
  {
    assert (l.stem + l.ext)[..7] == l.stem[..7];
    assert l.stem == l.stem[..7] + "v" + l.stem[8..] && l.ext == "." + l.ext[1..];
    assert (l.stem + l.ext)[7..] == "v" + (l.stem[8..] + ("." + l.ext[1..]));
  }

  lemma FileHasShape(month: string, file: string, version: string, ext: string)
    requires |month| == 4 && AllDigits(month) && FileParts(file, 7, version, ext)
    ensures var l := Legacy(month, file[..7] + ("v" + version), "." + ext);
      Shape(l) && OldKey(l) == month + "/" + file
  {
    var stem := file[..7] + ("v" + version);
    assert stem[..7] == file[..7] && stem[8..] == version;
    assert stem + ("." + ext) == file[..7] + file[7..] == file;
  }

  lemma ParsedIsMatched(key: string)
    requires Parse(key).Some?
    ensures Matches(LegacyPattern(4, 7), key)
  {
    var l := Parse(key).value;
    ParsedIsOldKey(key);
    ShapeIsAFile(l);
    FileIsMatched(7, l.stem + l.ext, l.stem[8..], l.ext[1..]);
    assert key[..4] == l.yymm && key[5..] == l.stem + l.ext;
    MonthThen(4, FilePattern(7), key);
  }

  lemma MatchedIsParsed(key: string)
    requires Matches(LegacyPattern(4, 7), key)
    ensures Parse(key).Some?
  {
    MonthThen(4, FilePattern(7), key);
    var month, file := key[..4], key[5..];
    var version, ext := FileMatches(7, file);
    FileHasShape(month, file, version, ext);
    assert key == month + "/" + file;
    ParseOfOldKey(Legacy(month, file[..7] + ("v" + version), "." + ext));
  }

  /** The keys the program takes apart are the ones its regular expression matches. */
  lemma ParsesWhatThePatternMatches(key: string)
    ensures Parse(key).Some? <==> Matches(LegacyPattern(4, 7), key)
  {
    if Parse(key).Some? {
      ParsedIsMatched(key);
    }
    if Matches(LegacyPattern(4, 7), key) {
      MatchedIsParsed(key);
    }
  }

  // ---------------------------------------------------------------- keys as paths

  lemma FileHasNoSlash(l: Legacy)
    requires Shape(l)
    ensures '/' !in l.yymm && '/' !in l.stem + l.ext
  {
    var file := l.stem + l.ext;
    forall i | 0 <= i < |file| ensures file[i] != '/' {
      assert file[i] == OldKey(l)[i + 5];
      LegacyHasOneSlash(l, i + 5);
    }
  }

  lemma TwoElements(month: string, file: string)
    requires '/' !in month && '/' !in file
    ensures Split(month + "/" + file, '/') == [month, file]
  {
    CutWithoutSeparator(file, '/');
    CutAtSeparator(month, '/', file);
  }

  lemma WithElementsBetween(month: string, category: string, file: string)
    requires '/' !in month && '/' !in file
    ensures Split(month + "/" + category + "/" + file, '/') == [month] + Split(category, '/') + [file]
  {
    CutWithoutSeparator(file, '/');
    SplitOfTwo(category, '/', file);
    CutAtSeparator(month, '/', category + ['/'] + file);
    assert month + "/" + category + "/" + file == month + ['/'] + (category + ['/'] + file);
    assert [month] + (Split(category, '/') + [file]) == [month] + Split(category, '/') + [file];
  }

  /** A legacy key is a month and a file, and its rewriting has the category's elements between the two. */
  lemma KeysAsPaths(l: Legacy, category: string)
    requires Shape(l)
    ensures Split(OldKey(l), '/') == [l.yymm, l.stem + l.ext]
    ensures Split(NewKey(l, category), '/') == [l.yymm] + Split(category, '/') + [l.stem + l.ext]
  {
    var file := l.stem + l.ext;
    FileHasNoSlash(l);
    assert OldKey(l) == l.yymm + "/" + file;
    TwoElements(l.yymm, file);
    assert NewKey(l, category) == l.yymm + "/" + category + "/" + file;
    WithElementsBetween(l.yymm, category, file);
  }

  /** The month a key begins with is numerically below this one. */
  predicate MonthBelow(key: string, cap: string) {
    && |key| >= 4 && AllDigits(key[..4]) && AllDigits(cap)
    && DigitsValue(key[..4]) < DigitsValue(cap)
  }

  /** Which listed keys are touched: those the pattern matches whose month is numerically below the cap. */
  lemma EligibleAsWritten(f: Flags, key: string)
    requires |f.yymmCap| == 4 && AllDigits(f.yymmCap)
    ensures Eligible(f, key)
      <==> Matches(LegacyPattern(4, 7), key) && MonthBelow(key, f.yymmCap)
  {
    ParsesWhatThePatternMatches(key);
    if Parse(key).Some? {
      ParsedIsOldKey(key);
      EligibleExactlyBelowTheCutover(f, Parse(key).value);
      assert key[..4] == Parse(key).value.yymm;
    }
  }

  /** The key the pattern matches, as month and file, and where its object belongs under this category. */
  predicate Belongs(category: string, oldKey: string, newKey: string) {
    && |Split(oldKey, '/')| == 2
    && Split(newKey, '/') == [Split(oldKey, '/')[0], category, Split(oldKey, '/')[1]]
  }

  lemma BelongsToTarget(f: Flags, oldKey: string, newKey: string)
    requires Parse(oldKey).Some? && '/' !in f.category
    ensures Belongs(f.category, oldKey, newKey) <==> newKey == Target(f, oldKey)
  {
    var l := Parse(oldKey).value;
    ParsedIsOldKey(oldKey);
    KeysAsPaths(l, f.category);
    CutWithoutSeparator(f.category, '/');
    assert [l.yymm] + [f.category] + [l.stem + l.ext] == [l.yymm, f.category, l.stem + l.ext];
    JoinOfSplit(newKey, '/');
    JoinOfSplit(NewKey(l, f.category), '/');
  }

  /** An object none of whose requests fails ends under month, category and file name: its content and metadata are
      what they were, and its old key is gone. */
  lemma CalmObjectsGoUnderTheirCategory(f: Flags, bucket: Bucket, listing: seq<string>, weather: nat -> Weather,
                                        i: nat, newKey: string)
    requires f.apply && f.limit == 0 && Distinct(listing) && i < |listing| && '/' !in f.category
    requires |f.yymmCap| == 4 && Matches(LegacyPattern(4, 7), listing[i]) && MonthBelow(listing[i], f.yymmCap)
    requires Calm(weather(i)) && Belongs(f.category, listing[i], newKey)
    requires listing[i] in bucket && newKey !in bucket
    ensures var after := Run(f, bucket, listing, weather, |listing|).bucket;
      listing[i] !in after && newKey in after && after[newKey] == bucket[listing[i]]
  {
    EligibleAsWritten(f, listing[i]);
    BelongsToTarget(f, listing[i], newKey);
    CalmObjectsAreMoved(f, bucket, listing, weather, i);
  }

  /** What the requests for an eligible object leave under its new key: the object, when the copy succeeded and was not
      a Put refused for the key being taken, or when a failed request had taken effect; what was there otherwise. */
  lemma NewKeyAfterwards(f: Flags, src: Option<Blob>, dst: Option<Blob>, w: Weather)
    requires src.Some? && f.apply && (w.statFails || dst.None?)
    ensures var (_, dst', _) := Migrate(f, src, dst, w);
      && (w.copying == Copied ==> dst' == src)
      && (w.copying == CopyRefused(true) ==> dst' == src)
      && (w.copying == CopyRefused(false) ==> dst' == dst)
      && (w.copying == CopyUnsupported && dst.Some? ==> dst' == dst)
      && (w.copying == CopyUnsupported && dst.None? ==>
            dst' == if !w.getFails && (!w.putFails || w.putWrote) then src else None)
    ensures var (src', _, verdict) := Migrate(f, src, dst, w);
      src' == None <==> (verdict == Migrated || (verdict == DeleteFailed && w.deleting == DeleteRefused(true)))
  {
  }

  // ---------------------------------------------------------------- counters and the limit

  /** What a counter of the run counts. */
  datatype Counted = Scanned | OldStyle | SeenMigrated | CopiedOver | Moved | FailedOn

  predicate Seen(f: Flags, bucket: Bucket, listing: seq<string>, weather: nat -> Weather, i: nat) {
    i < |listing| && Eligible(f, listing[i]) && !weather(i).statFails && Target(f, listing[i]) in bucket
  }

  /** Whether the object at position i is to be counted there, judged by the bucket at the start. */
  predicate CountsAs(kind: Counted, f: Flags, bucket: Bucket, listing: seq<string>, weather: nat -> Weather, i: nat)
    requires i < |listing|
  {
    var copied := f.apply && Copyable(f, bucket, listing, weather, i);
    match kind
    case Scanned => true
    case OldStyle => Eligible(f, listing[i])
    case SeenMigrated => Seen(f, bucket, listing, weather, i)
    case CopiedOver => copied
    case Moved => copied && weather(i).deleting == Removed
    case FailedOn =>
      && f.apply && Eligible(f, listing[i]) && !Seen(f, bucket, listing, weather, i)
      && !(copied && weather(i).deleting == Removed)
  }

  function Number(kind: Counted, f: Flags, bucket: Bucket, listing: seq<string>, weather: nat -> Weather, n: nat): nat
    requires n <= |listing|
  {
    if n == 0 then 0
    else
      Number(kind, f, bucket, listing, weather, n - 1)
      + if CountsAs(kind, f, bucket, listing, weather, n - 1) then 1 else 0
  }

  ghost predicate Counts(s: Stats, f: Flags, bucket: Bucket, listing: seq<string>, weather: nat -> Weather, n: nat)
    requires n <= |listing|
  {
    && s.scanned == Number(Scanned, f, bucket, listing, weather, n)
    && s.eligible == Number(OldStyle, f, bucket, listing, weather, n)
    && s.alreadyMigrated == Number(SeenMigrated, f, bucket, listing, weather, n)
    && s.copied == Number(CopiedOver, f, bucket, listing, weather, n)
    && s.deleted == Number(Moved, f, bucket, listing, weather, n)
    && s.failed == Number(FailedOn, f, bucket, listing, weather, n)
  }

  lemma EligibleCounts(f: Flags, bucket: Bucket, listing: seq<string>, weather: nat -> Weather, i: nat, s: Stats)
    requires Distinct(listing) && i < |listing| && Eligible(f, listing[i])
    requires Counts(s, f, bucket, listing, weather, i)
    ensures Counts(Count(s, VerdictAt(f, bucket, listing, weather, i)), f, bucket, listing, weather, i + 1)
  {
    var src, dst := At(bucket, listing[i]), At(bucket, Target(f, listing[i]));
    VerdictFromTheStart(f, bucket, listing, weather, i);
    DeleteIsTriedExactly(f, src, dst, weather(i));
    VerdictOf(f, src, dst, weather(i));
  }

  lemma VerdictOf(f: Flags, src: Option<Blob>, dst: Option<Blob>, w: Weather)
    ensures var verdict := Migrate(f, src, dst, w).2;
      var seen := !w.statFails && dst.Some?;
      && (verdict == AlreadyMigrated <==> seen)
      && (verdict == WouldMigrate <==> !seen && !f.apply)
      && (verdict == Migrated || verdict == DeleteFailed || verdict == CopyFailed <==> !seen && f.apply)
  {
  }

  /** As long as the run has not stopped, each counter is the number of listed objects of its kind. */
  lemma {:induction false} CountersCountObjects(f: Flags, bucket: Bucket, listing: seq<string>,
                                                weather: nat -> Weather, n: nat)
    requires Distinct(listing) && n <= |listing|
    requires n == 0 || !Run(f, bucket, listing, weather, n - 1).stopped
    ensures Counts(Run(f, bucket, listing, weather, n).stats, f, bucket, listing, weather, n)
  {
    if n > 0 {
      var i := n - 1;
      CountersCountObjects(f, bucket, listing, weather, i);
      var s := Run(f, bucket, listing, weather, i).stats;
      if Eligible(f, listing[i]) {
        EligibleCounts(f, bucket, listing, weather, i, s);
      }
    }
  }

  /** Coming to the object at position i, the run reaches its limit. */
  predicate ReachesLimit(f: Flags, bucket: Bucket, listing: seq<string>, weather: nat -> Weather, i: nat)
    requires i < |listing|
  {
    f.limit > 0 &&
    if f.apply then
      && CountsAs(Moved, f, bucket, listing, weather, i)
      && Number(CopiedOver, f, bucket, listing, weather, i + 1) >= f.limit
    else
      && Eligible(f, listing[i]) && !Seen(f, bucket, listing, weather, i)
      && Number(OldStyle, f, bucket, listing, weather, i + 1) >= f.limit
  }

  lemma StopsHere(f: Flags, bucket: Bucket, listing: seq<string>, weather: nat -> Weather, i: nat)
    requires Distinct(listing) && i < |listing| && !Run(f, bucket, listing, weather, i).stopped
    ensures Run(f, bucket, listing, weather, i + 1).stopped <==> ReachesLimit(f, bucket, listing, weather, i)
  {
    CountersCountObjects(f, bucket, listing, weather, i + 1);
    if Eligible(f, listing[i]) {
      var src, dst := At(bucket, listing[i]), At(bucket, Target(f, listing[i]));
      VerdictFromTheStart(f, bucket, listing, weather, i);
      DeleteIsTriedExactly(f, src, dst, weather(i));
      VerdictOf(f, src, dst, weather(i));
    }
  }

  /** A run stops early exactly when some object it came to reached the limit: with --apply one that was moved when
      as many as the limit had been copied, without it one that would be moved when as many had been eligible. */
  lemma {:induction false} StopsExactlyAtTheLimit(f: Flags, bucket: Bucket, listing: seq<string>,
                                                  weather: nat -> Weather, n: nat)
    requires Distinct(listing) && n <= |listing|
    ensures Run(f, bucket, listing, weather, n).stopped
      <==> exists i: nat :: i < n && ReachesLimit(f, bucket, listing, weather, i)
  {
    if n > 0 {
      StopsExactlyAtTheLimit(f, bucket, listing, weather, n - 1);
      if Run(f, bucket, listing, weather, n - 1).stopped {
        StoppedStays(f, bucket, listing, weather, n - 1, n);
      } else {
        StopsHere(f, bucket, listing, weather, n - 1);
      }
    }
  }
}
