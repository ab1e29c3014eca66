/** `storage migrate-layout`: legacy bare keys are copied under their category and then deleted, with
    a failure possible at every request. */
module LayoutMigration {
  import opened Text
  import opened Options
  import Order

  // ---------------------------------------------------------------- keys

  /** <yymm>/<stem>.<ext> taken apart; `ext` keeps its dot. */
  datatype Legacy = Legacy(yymm: string, stem: string, ext: string)

  predicate ExtensionChar(c: char) {
    IsDigit(c) || 'a' <= c <= 'z'
  }

  /** \d{4}, \d{7}v\d+ and \.[a-z0-9]+ */
  predicate Shape(l: Legacy) {
    && |l.yymm| == 4 && AllDigits(l.yymm)
    && |l.stem| >= 9 && AllDigits(l.stem[..7]) && l.stem[7] == 'v' && AllDigits(l.stem[8..])
    && |l.ext| >= 2 && l.ext[0] == '.' && forall i :: 1 <= i < |l.ext| ==> ExtensionChar(l.ext[i])
  }

  function OldKey(l: Legacy): string {
    l.yymm + "/" + l.stem + l.ext
  }

  function NewKey(l: Legacy, category: string): string {
    l.yymm + "/" + category + "/" + l.stem + l.ext
  }

  /** The legacy pattern's submatches: a stem holds no dot, so the first dot ends it. */
  function Parse(key: string): Option<Legacy> {
    if |key| < 5 || key[4] != '/' then None
    else
      var (stem, after) := Cut(key[5..], '.');
      if after.None? then None
      else
        var l := Legacy(key[..4], stem, "." + after.value);
        if Shape(l) then Some(l) else None
  }

  lemma ParseOfOldKey(l: Legacy)
    requires Shape(l)
    ensures Parse(OldKey(l)) == Some(l)
  {
    var key := OldKey(l);
    assert key[..4] == l.yymm && key[5..] == l.stem + ['.'] + l.ext[1..];
    assert '.' !in l.stem by {
      assert forall i :: 0 <= i < 7 ==> l.stem[i] == l.stem[..7][i];
      assert forall i :: 8 <= i < |l.stem| ==> l.stem[i] == l.stem[8..][i - 8];
    }
    CutAtSeparator(l.stem, '.', l.ext[1..]);
    assert "." + l.ext[1..] == l.ext;
  }

  lemma ParsedIsOldKey(key: string)
    requires Parse(key).Some?
    ensures Shape(Parse(key).value) && OldKey(Parse(key).value) == key
  {
    var l := Parse(key).value;
    CutRebuilds(key[5..], '.');
    assert l.stem + l.ext == key[5..];
    assert key == key[..4] + "/" + key[5..];
  }

  /** Parse finds exactly the keys of legacy shape. */
  lemma ParseIsExact(key: string, l: Legacy)
    ensures Parse(key) == Some(l) <==> Shape(l) && OldKey(l) == key
  {
    if Parse(key).Some? {
      ParsedIsOldKey(key);
    }
    if Shape(l) {
      ParseOfOldKey(l);
    }
  }

  /** A legacy key has a single slash, after the month. */
  lemma LegacyHasOneSlash(l: Legacy, i: nat)
    requires Shape(l) && 5 <= i < |OldKey(l)|
    ensures OldKey(l)[i] != '/'
  {
    var k := i - 5;
    if k < |l.stem| {
      assert OldKey(l)[i] == l.stem[k];
      assert k < 7 ==> l.stem[k] == l.stem[..7][k];
      assert k > 7 ==> l.stem[k] == l.stem[8..][k - 8];
    } else {
      assert OldKey(l)[i] == l.ext[k - |l.stem|];
    }
  }

  /** A rewritten key is never eligible again, whatever the category. */
  lemma NewKeysAreNotLegacy(l: Legacy, category: string)
    requires Shape(l)
    ensures Parse(NewKey(l, category)).None?
  {
    var key := NewKey(l, category);
    if Parse(key).Some? {
      var m := Parse(key).value;
      ParseIsExact(key, m);
      LegacyHasOneSlash(m, 5 + |category|);
    }
  }

  /** Different legacy keys are rewritten to different keys. */
  lemma RewriteIsInjective(l: Legacy, m: Legacy, category: string)
    requires Shape(l) && Shape(m) && NewKey(l, category) == NewKey(m, category)
    ensures l == m
  {
    var head := 6 + |category|;
    assert NewKey(l, category)[..4] == l.yymm && NewKey(m, category)[..4] == m.yymm;
    assert NewKey(l, category)[head..] == l.stem + l.ext && NewKey(m, category)[head..] == m.stem + m.ext;
    assert OldKey(l) == l.yymm + "/" + (l.stem + l.ext) && OldKey(m) == m.yymm + "/" + (m.stem + m.ext);
    ParseOfOldKey(l);
    ParseOfOldKey(m);
  }

  // ---------------------------------------------------------------- one object

  datatype Flags = Flags(yymmCap: string, category: string, limit: int, apply: bool)

  /** The bytes and metadata of an object. */
  datatype Blob = Blob(bytes: string, metadata: string)

  type Bucket = map<string, Blob>

  datatype Copying = Copied | CopyRefused(wrote: bool) | CopyUnsupported

  datatype Deleting = Removed | DeleteRefused(removed: bool)

  /** How the requests for one object go; a failed request may still have taken effect.  `putFails` is any
      error but the 412 of an occupied key. */
  datatype Weather = Weather(statFails: bool, copying: Copying, getFails: bool, putFails: bool, putWrote: bool,
    deleting: Deleting)

  datatype Verdict = NotEligible | AlreadyMigrated | WouldMigrate | CopyFailed | DeleteFailed | Migrated

  function At(bucket: Bucket, key: string): Option<Blob> {
    if key in bucket then Some(bucket[key]) else None
  }

  function Set(bucket: Bucket, key: string, blob: Option<Blob>): Bucket {
    match blob
    case Some(b) => bucket[key := b]
    case None => bucket - {key}
  }

  /** copyObjectPreservingMeta on what is under the old and new key: what is then under the new one, and
      whether it reports success. */
  function CopyPreservingMeta(src: Option<Blob>, dst: Option<Blob>, w: Weather): (Option<Blob>, bool) {
    match w.copying
    case Copied => if src.Some? then (src, true) else (dst, false)
    case CopyRefused(wrote) => (if wrote && src.Some? then src else dst, false)
    case CopyUnsupported =>
      if w.getFails || src.None? then (dst, false)
      else if w.putFails then (if w.putWrote && dst.None? then src else dst, false)
      else if dst.Some? then (dst, true)
      else (src, true)
  }

  /** One eligible object: what ends up under its old and new key. */
  function Migrate(f: Flags, src: Option<Blob>, dst: Option<Blob>, w: Weather): (Option<Blob>, Option<Blob>, Verdict) {
    if !w.statFails && dst.Some? then (src, dst, AlreadyMigrated)
    else if !f.apply then (src, dst, WouldMigrate)
    else
      var (written, copied) := CopyPreservingMeta(src, dst, w);
      if !copied then (src, written, CopyFailed)
      else match w.deleting
        case Removed => (None, written, Migrated)
        case DeleteRefused(removed) => (if removed then None else src, written, DeleteFailed)
  }

  predicate Eligible(f: Flags, key: string) {
    Parse(key).Some? && Order.Less(Parse(key).value.yymm, f.yymmCap)
  }

  function Target(f: Flags, key: string): string
    requires Parse(key).Some?
  {
    NewKey(Parse(key).value, f.category)
  }

  // ---------------------------------------------------------------- the run

  datatype Stats = Stats(scanned: nat, eligible: nat, alreadyMigrated: nat, copied: nat, deleted: nat, failed: nat)

  datatype World = World(bucket: Bucket, stats: Stats, stopped: bool)

  function Count(s: Stats, verdict: Verdict): Stats {
    var s := s.(scanned := s.scanned + 1, eligible := if verdict.NotEligible? then s.eligible else s.eligible + 1);
    match verdict
    case AlreadyMigrated => s.(alreadyMigrated := s.alreadyMigrated + 1)
    case CopyFailed => s.(failed := s.failed + 1)
    case DeleteFailed => s.(copied := s.copied + 1, failed := s.failed + 1)
    case Migrated => s.(copied := s.copied + 1, deleted := s.deleted + 1)
    case _ => s
  }

  predicate LimitReached(f: Flags, s: Stats, verdict: Verdict) {
    && f.limit > 0
    && ((verdict.WouldMigrate? && s.eligible >= f.limit) || (verdict.Migrated? && s.copied >= f.limit))
  }

  function Next(f: Flags, world: World, key: string, w: Weather): World {
    if world.stopped then world
    else if !Eligible(f, key) then world.(stats := Count(world.stats, NotEligible))
    else
      var target := Target(f, key);
      var (src, dst, verdict) := Migrate(f, At(world.bucket, key), At(world.bucket, target), w);
      var stats := Count(world.stats, verdict);
      World(Set(Set(world.bucket, target, dst), key, src), stats, LimitReached(f, stats, verdict))
  }

  function Start(bucket: Bucket): World {
    World(bucket, Stats(0, 0, 0, 0, 0, 0), false)
  }

  function Run(f: Flags, bucket: Bucket, listing: seq<string>, weather: nat -> Weather, n: nat): World
    requires n <= |listing|
  {
    if n == 0 then Start(bucket) else Next(f, Run(f, bucket, listing, weather, n - 1), listing[n - 1], weather(n - 1))
  }

  lemma {:induction false} StoppedStays(f: Flags, bucket: Bucket, listing: seq<string>,
                                        weather: nat -> Weather, n: nat, m: nat)
    requires n <= m <= |listing| && Run(f, bucket, listing, weather, n).stopped
    ensures Run(f, bucket, listing, weather, m) == Run(f, bucket, listing, weather, n)
  {
    if n < m {
      StoppedStays(f, bucket, listing, weather, n, m - 1);
    }
  }

  lemma SetBack(bucket: Bucket, key: string)
    ensures Set(bucket, key, At(bucket, key)) == bucket
  {
  }

  /** An object that is not copied changes nothing in the bucket. */
  lemma NextWithoutCopy(f: Flags, bucket: Bucket, stats: Stats, key: string, w: Weather)
    requires Eligible(f, key)
    requires var dst := At(bucket, Target(f, key)); (!w.statFails && dst.Some?) || !f.apply
    ensures var verdict := if !w.statFails && Target(f, key) in bucket then AlreadyMigrated else WouldMigrate;
      Next(f, World(bucket, stats, false), key, w)
      == World(bucket, Count(stats, verdict), LimitReached(f, Count(stats, verdict), verdict))
  {
    SetBack(bucket, Target(f, key));
    SetBack(bucket, key);
  }

  /** The bucket after the copy, and after the delete when that took effect. */
  lemma NextWithCopy(f: Flags, bucket: Bucket, stats: Stats, key: string, w: Weather)
    requires Eligible(f, key) && f.apply && (w.statFails || Target(f, key) !in bucket)
    ensures var (written, copied) := CopyPreservingMeta(At(bucket, key), At(bucket, Target(f, key)), w);
      var there := Set(bucket, Target(f, key), written);
      var verdict := if !copied then CopyFailed else if w.deleting == Removed then Migrated else DeleteFailed;
      Next(f, World(bucket, stats, false), key, w)
      == World(if copied && w.deleting != DeleteRefused(false) then there - {key} else there,
               Count(stats, verdict), LimitReached(f, Count(stats, verdict), verdict))
  {
    NewKeysAreNotLegacy(Parse(key).value, f.category);
    SetBack(Set(bucket, Target(f, key), CopyPreservingMeta(At(bucket, key), At(bucket, Target(f, key)), w).0), key);
  }

  method MigrateOneKind(f: Flags, bucket: Bucket, listing: seq<string>, weather: nat -> Weather)
    returns (after: Bucket, stats: Stats)
    ensures after == Run(f, bucket, listing, weather, |listing|).bucket
    ensures stats == Run(f, bucket, listing, weather, |listing|).stats
  {
    after := bucket;
    stats := Stats(0, 0, 0, 0, 0, 0);
    var n := 0;
    while n < |listing|
      invariant 0 <= n <= |listing|
      invariant Run(f, bucket, listing, weather, n) == World(after, stats, false)
    {
      var oldKey := listing[n];
      var w := weather(n);
      n := n + 1;
      stats := stats.(scanned := stats.scanned + 1);
      var m := Parse(oldKey);
      if m.None? || !Order.Less(m.value.yymm, f.yymmCap) {
        continue;
      }
      stats := stats.(eligible := stats.eligible + 1);
      var newKey := NewKey(m.value, f.category);
      ghost var before, counted := after, stats.(scanned := stats.scanned - 1, eligible := stats.eligible - 1);
      if (!w.statFails && newKey in after) || !f.apply {
        NextWithoutCopy(f, before, counted, oldKey, w);
      } else {
        NextWithCopy(f, before, counted, oldKey, w);
      }
      if !w.statFails && newKey in after {
        stats := stats.(alreadyMigrated := stats.alreadyMigrated + 1);
        continue;
      }
      if !f.apply {
        if f.limit > 0 && stats.eligible >= f.limit {
          StoppedStays(f, bucket, listing, weather, n, |listing|);
          return;
        }
        continue;
      }
      var (written, copied) := CopyPreservingMeta(At(after, oldKey), At(after, newKey), w);
      after := Set(after, newKey, written);
      if !copied {
        stats := stats.(failed := stats.failed + 1);
        continue;
      }
      stats := stats.(copied := stats.copied + 1);
      if w.deleting == Removed || w.deleting == DeleteRefused(true) {
        after := after - {oldKey};
      }
      if w.deleting != Removed {
        stats := stats.(failed := stats.failed + 1);
        continue;
      }
      stats := stats.(deleted := stats.deleted + 1);
      if f.limit > 0 && stats.copied >= f.limit {
        StoppedStays(f, bucket, listing, weather, n, |listing|);
        return;
      }
    }
  }

  // ---------------------------------------------------------------- counters

  ghost predicate Accounted(f: Flags, w: World) {
    && (f.apply ==> w.stats.eligible == w.stats.alreadyMigrated + w.stats.deleted + w.stats.failed)
    && w.stats.deleted <= w.stats.copied <= w.stats.deleted + w.stats.failed
    && (f.limit > 0 ==> w.stats.deleted <= f.limit && (w.stats.deleted == f.limit ==> w.stopped))
  }

  /** With --apply every eligible object is counted once as already migrated, deleted or failed; a limit bounds
      the objects moved, and the copies up to the failures. */
  lemma {:induction false} EveryObjectIsAccountedFor(f: Flags, bucket: Bucket, listing: seq<string>,
                                                     weather: nat -> Weather, n: nat)
    requires n <= |listing|
    ensures Accounted(f, Run(f, bucket, listing, weather, n))
    ensures f.limit > 0 ==> Run(f, bucket, listing, weather, n).stats.copied
                            <= f.limit + Run(f, bucket, listing, weather, n).stats.failed
  {
    if n > 0 {
      EveryObjectIsAccountedFor(f, bucket, listing, weather, n - 1);
      OneMoreIsAccountedFor(f, Run(f, bucket, listing, weather, n - 1), listing[n - 1], weather(n - 1));
    }
  }

  lemma OneMoreIsAccountedFor(f: Flags, world: World, key: string, w: Weather)
    requires Accounted(f, world) && (f.limit > 0 ==> world.stats.copied <= f.limit + world.stats.failed)
    ensures Accounted(f, Next(f, world, key, w))
    ensures f.limit > 0 ==> Next(f, world, key, w).stats.copied <= f.limit + Next(f, world, key, w).stats.failed
  {
    if !world.stopped && Eligible(f, key) {
      var verdict := Migrate(f, At(world.bucket, key), At(world.bucket, Target(f, key)), w).2;
      CountIsAccountedFor(f, world.stats, verdict);
    }
  }

  lemma CountIsAccountedFor(f: Flags, s: Stats, verdict: Verdict)
    requires Accounted(f, World(map[], s, false)) && verdict != NotEligible
    requires f.limit > 0 ==> s.copied <= f.limit + s.failed
    requires f.apply ==> verdict != WouldMigrate
    ensures var s' := Count(s, verdict);
      Accounted(f, World(map[], s', LimitReached(f, s', verdict))) && (f.limit > 0 ==> s'.copied <= f.limit + s'.failed)
  {
  }

  /** Without --apply nothing is written. */
  lemma {:induction false} DryRunChangesNothing(f: Flags, bucket: Bucket, listing: seq<string>,
                                                weather: nat -> Weather, n: nat)
    requires n <= |listing| && !f.apply
    ensures var w := Run(f, bucket, listing, weather, n);
      w.bucket == bucket && w.stats.copied == w.stats.deleted == w.stats.failed == 0
  {
    if n > 0 {
      DryRunChangesNothing(f, bucket, listing, weather, n - 1);
      if Eligible(f, listing[n - 1]) {
        SetBack(bucket, Target(f, listing[n - 1]));
        SetBack(bucket, listing[n - 1]);
      }
    }
  }

  // ---------------------------------------------------------------- each object by itself

  /** ListPrefix lists every key once. */
  ghost predicate Distinct(listing: seq<string>) {
    forall i, j :: 0 <= i < j < |listing| ==> listing[i] != listing[j]
  }

  ghost predicate Concerns(f: Flags, listing: seq<string>, i: nat, x: string)
    requires i < |listing|
  {
    Eligible(f, listing[i]) && (x == listing[i] || x == Target(f, listing[i]))
  }

  lemma NextTouchesOnlyItsPair(f: Flags, world: World, key: string, w: Weather, x: string)
    requires !(Eligible(f, key) && (x == key || x == Target(f, key)))
    ensures At(Next(f, world, key, w).bucket, x) == At(world.bucket, x)
  {
  }

  lemma {:induction false} Untouched(f: Flags, bucket: Bucket, listing: seq<string>,
                                     weather: nat -> Weather, m: nat, n: nat, x: string)
    requires m <= n <= |listing| && forall i :: m <= i < n ==> !Concerns(f, listing, i, x)
    ensures At(Run(f, bucket, listing, weather, n).bucket, x) == At(Run(f, bucket, listing, weather, m).bucket, x)
    decreases n
  {
    if m < n {
      Untouched(f, bucket, listing, weather, m, n - 1, x);
      assert !Concerns(f, listing, n - 1, x);
      NextTouchesOnlyItsPair(f, Run(f, bucket, listing, weather, n - 1), listing[n - 1], weather(n - 1), x);
    }
  }

  /** No two listed objects share a key, old or new. */
  lemma PairsAreDisjoint(f: Flags, listing: seq<string>, i: nat, j: nat, x: string)
    requires Distinct(listing) && i < |listing| && j < |listing| && i != j && Concerns(f, listing, i, x)
    ensures !Concerns(f, listing, j, x)
  {
    var l := Parse(listing[i]).value;
    ParseIsExact(listing[i], l);
    NewKeysAreNotLegacy(l, f.category);
    if Eligible(f, listing[j]) {
      var m := Parse(listing[j]).value;
      ParseIsExact(listing[j], m);
      NewKeysAreNotLegacy(m, f.category);
      if Target(f, listing[i]) == Target(f, listing[j]) {
        RewriteIsInjective(l, m, f.category);
      }
    }
  }

  /** Until it is visited nothing happens to a pair. */
  lemma PairUntilVisited(f: Flags, bucket: Bucket, listing: seq<string>, weather: nat -> Weather, i: nat)
    requires Distinct(listing) && i < |listing| && Eligible(f, listing[i])
    ensures At(Run(f, bucket, listing, weather, i).bucket, listing[i]) == At(bucket, listing[i])
    ensures At(Run(f, bucket, listing, weather, i).bucket, Target(f, listing[i])) == At(bucket, Target(f, listing[i]))
  {
    var key, target := listing[i], Target(f, listing[i]);
    forall j | 0 <= j < i ensures !Concerns(f, listing, j, key) && !Concerns(f, listing, j, target) {
      PairsAreDisjoint(f, listing, i, j, key);
      PairsAreDisjoint(f, listing, i, j, target);
    }
    Untouched(f, bucket, listing, weather, 0, i, key);
    Untouched(f, bucket, listing, weather, 0, i, target);
  }

  lemma PairIsVisited(f: Flags, bucket: Bucket, listing: seq<string>, weather: nat -> Weather, i: nat)
    requires Distinct(listing) && i < |listing| && Eligible(f, listing[i])
    requires !Run(f, bucket, listing, weather, i).stopped
    ensures var (src, dst, _) := Migrate(f, At(bucket, listing[i]), At(bucket, Target(f, listing[i])), weather(i));
      && At(Run(f, bucket, listing, weather, i + 1).bucket, listing[i]) == src
      && At(Run(f, bucket, listing, weather, i + 1).bucket, Target(f, listing[i])) == dst
  {
    var key := listing[i];
    PairUntilVisited(f, bucket, listing, weather, i);
    NewKeysAreNotLegacy(Parse(key).value, f.category);
    ParseIsExact(key, Parse(key).value);
    NextMigrates(f, Run(f, bucket, listing, weather, i), key, weather(i));
  }

  lemma PairStays(f: Flags, bucket: Bucket, listing: seq<string>, weather: nat -> Weather, i: nat, n: nat, x: string)
    requires Distinct(listing) && i < n <= |listing| && Concerns(f, listing, i, x)
    ensures At(Run(f, bucket, listing, weather, n).bucket, x) == At(Run(f, bucket, listing, weather, i + 1).bucket, x)
  {
    forall j | i + 1 <= j < n ensures !Concerns(f, listing, j, x) {
      PairsAreDisjoint(f, listing, i, j, x);
    }
    Untouched(f, bucket, listing, weather, i + 1, n, x);
  }

  /** Each visited object ends as if it had been migrated alone. */
  lemma PairResult(f: Flags, bucket: Bucket, listing: seq<string>, weather: nat -> Weather, i: nat, n: nat)
    requires Distinct(listing) && i < n <= |listing| && Eligible(f, listing[i])
    requires !Run(f, bucket, listing, weather, i).stopped
    ensures var (src, dst, _) := Migrate(f, At(bucket, listing[i]), At(bucket, Target(f, listing[i])), weather(i));
      && At(Run(f, bucket, listing, weather, n).bucket, listing[i]) == src
      && At(Run(f, bucket, listing, weather, n).bucket, Target(f, listing[i])) == dst
  {
    PairIsVisited(f, bucket, listing, weather, i);
    PairStays(f, bucket, listing, weather, i, n, listing[i]);
    PairStays(f, bucket, listing, weather, i, n, Target(f, listing[i]));
  }

  lemma NextMigrates(f: Flags, world: World, key: string, w: Weather)
    requires Eligible(f, key) && !world.stopped && Target(f, key) != key
    ensures var (src, dst, _) := Migrate(f, At(world.bucket, key), At(world.bucket, Target(f, key)), w);
      && At(Next(f, world, key, w).bucket, key) == src
      && At(Next(f, world, key, w).bucket, Target(f, key)) == dst
  {
  }

  // ---------------------------------------------------------------- no content is lost, and exactly when it is

  /** The new key already holds something else, Stat failed to say so, and then either the unconditional
      server-side copy overwrote it, or the create-only Put was answered 412, taken for success, and the
      old object deleted. */
  predicate Clashes(f: Flags, src: Option<Blob>, dst: Option<Blob>, w: Weather) {
    && f.apply && src.Some? && dst.Some? && src != dst && w.statFails
    && match w.copying
       case Copied => true
       case CopyRefused(wrote) => wrote
       case CopyUnsupported => !w.getFails && !w.putFails && w.deleting != DeleteRefused(false)
  }

  /** The content under a key is still there, or under the key's rewriting. */
  predicate Kept(f: Flags, before: Bucket, after: Bucket, key: string) {
    key in before ==>
      || At(after, key) == At(before, key)
      || (Parse(key).Some? && At(after, Target(f, key)) == At(before, key))
  }

  lemma PairIsKeptExactly(f: Flags, src: Option<Blob>, dst: Option<Blob>, w: Weather)
    ensures var (src', dst', _) := Migrate(f, src, dst, w);
      (src.Some? ==> src' == src || dst' == src) && (dst.Some? ==> dst' == dst) <==> !Clashes(f, src, dst, w)
  {
  }

  predicate Visited(f: Flags, bucket: Bucket, listing: seq<string>, weather: nat -> Weather, i: nat) {
    i < |listing| && Eligible(f, listing[i]) && !Run(f, bucket, listing, weather, i).stopped
  }

  predicate ClashesAt(f: Flags, bucket: Bucket, listing: seq<string>, weather: nat -> Weather, i: nat)
    requires i < |listing| && Eligible(f, listing[i])
  {
    Clashes(f, At(bucket, listing[i]), At(bucket, Target(f, listing[i])), weather(i))
  }

  lemma VisitedPairIsKeptExactly(f: Flags, bucket: Bucket, listing: seq<string>, weather: nat -> Weather, i: nat)
    requires Distinct(listing) && Visited(f, bucket, listing, weather, i)
    ensures var after := Run(f, bucket, listing, weather, |listing|).bucket;
      Kept(f, bucket, after, listing[i]) && Kept(f, bucket, after, Target(f, listing[i]))
      <==> !ClashesAt(f, bucket, listing, weather, i)
  {
    PairResult(f, bucket, listing, weather, i, |listing|);
    ParseIsExact(listing[i], Parse(listing[i]).value);
    NewKeysAreNotLegacy(Parse(listing[i]).value, f.category);
    PairIsKeptExactly(f, At(bucket, listing[i]), At(bucket, Target(f, listing[i])), weather(i));
  }

  lemma {:induction false} NotVisitedNotTouched(f: Flags, bucket: Bucket, listing: seq<string>,
                                                weather: nat -> Weather, n: nat, x: string)
    requires n <= |listing|
    requires forall i: nat :: i < n && Concerns(f, listing, i, x) ==> !Visited(f, bucket, listing, weather, i)
    ensures At(Run(f, bucket, listing, weather, n).bucket, x) == At(bucket, x)
  {
    if n > 0 {
      NotVisitedNotTouched(f, bucket, listing, weather, n - 1, x);
      if !Concerns(f, listing, n - 1, x) {
        NextTouchesOnlyItsPair(f, Run(f, bucket, listing, weather, n - 1), listing[n - 1], weather(n - 1), x);
      } else {
        assert !Visited(f, bucket, listing, weather, n - 1);
      }
    }
  }

  ghost predicate NoClash(f: Flags, bucket: Bucket, listing: seq<string>, weather: nat -> Weather) {
    forall i: nat :: Visited(f, bucket, listing, weather, i) ==> !ClashesAt(f, bucket, listing, weather, i)
  }

  lemma NoClashKeeps(f: Flags, bucket: Bucket, listing: seq<string>, weather: nat -> Weather, key: string)
    requires Distinct(listing) && NoClash(f, bucket, listing, weather)
    ensures Kept(f, bucket, Run(f, bucket, listing, weather, |listing|).bucket, key)
  {
    if i: nat :| i < |listing| && Concerns(f, listing, i, key) && Visited(f, bucket, listing, weather, i) {
      VisitedPairIsKeptExactly(f, bucket, listing, weather, i);
    } else {
      NotVisitedNotTouched(f, bucket, listing, weather, |listing|, key);
    }
  }

  /** Whatever fails, a run keeps every object's content exactly when no visited object clashes. */
  lemma ContentIsKeptExactly(f: Flags, bucket: Bucket, listing: seq<string>, weather: nat -> Weather)
    requires Distinct(listing)
    ensures (forall key: string :: Kept(f, bucket, Run(f, bucket, listing, weather, |listing|).bucket, key))
      <==> NoClash(f, bucket, listing, weather)
  {
    var after := Run(f, bucket, listing, weather, |listing|).bucket;
    if NoClash(f, bucket, listing, weather) {
      forall key: string ensures Kept(f, bucket, after, key) {
        NoClashKeeps(f, bucket, listing, weather, key);
      }
    } else {
      var i: nat :| Visited(f, bucket, listing, weather, i) && ClashesAt(f, bucket, listing, weather, i);
      VisitedPairIsKeptExactly(f, bucket, listing, weather, i);
    }
  }

  /** No request for this object fails, by server-side copy or by Get and Put. */
  predicate Calm(w: Weather) {
    && !w.statFails && !w.getFails && !w.putFails && w.deleting == Removed
    && !w.copying.CopyRefused?
  }

  lemma {:induction false} UnlimitedNeverStops(f: Flags, bucket: Bucket, listing: seq<string>,
                                               weather: nat -> Weather, n: nat)
    requires f.limit == 0 && n <= |listing|
    ensures !Run(f, bucket, listing, weather, n).stopped
  {
    if n > 0 {
      UnlimitedNeverStops(f, bucket, listing, weather, n - 1);
    }
  }

  /** An unlimited run in which no request for an object fails moves it: gone from its old key, the same
      content under the new one. */
  lemma CalmObjectsAreMoved(f: Flags, bucket: Bucket, listing: seq<string>, weather: nat -> Weather, i: nat)
    requires f.apply && f.limit == 0 && Distinct(listing) && i < |listing|
    requires Eligible(f, listing[i]) && Calm(weather(i))
    requires listing[i] in bucket && Target(f, listing[i]) !in bucket
    ensures var after := Run(f, bucket, listing, weather, |listing|).bucket;
      listing[i] !in after && At(after, Target(f, listing[i])) == Some(bucket[listing[i]])
  {
    UnlimitedNeverStops(f, bucket, listing, weather, i);
    PairResult(f, bucket, listing, weather, i, |listing|);
  }

  // ---------------------------------------------------------------- a second run

  predicate DeleteTried(verdict: Verdict) {
    verdict == Migrated || verdict == DeleteFailed
  }

  /** What one run leaves of an object it copied without managing to delete. */
  lemma FailedDeleteLeavesBoth(f: Flags, bucket: Bucket, listing: seq<string>, weather: nat -> Weather, i: nat)
    requires Distinct(listing) && Visited(f, bucket, listing, weather, i)
    requires weather(i).deleting == DeleteRefused(false)
    requires Migrate(f, At(bucket, listing[i]), At(bucket, Target(f, listing[i])), weather(i)).2 == DeleteFailed
    ensures var after := Run(f, bucket, listing, weather, |listing|).bucket;
      && At(after, listing[i]) == At(bucket, listing[i]) && At(after, listing[i]).Some?
      && At(after, Target(f, listing[i])).Some?
  {
    PairResult(f, bucket, listing, weather, i, |listing|);
  }

  /** The copy's own requests succeed: the server-side copy, or the Get and, up to a 412, the Put it falls back to. */
  predicate CopyAnswers(w: Weather) {
    w.copying.Copied? || (w.copying.CopyUnsupported? && !w.getFails && !w.putFails)
  }

  /** An object is copied, and its delete tried, exactly when it is there, nothing is seen under its new key and
      the copy's requests succeed. */
  lemma DeleteIsTriedExactly(f: Flags, src: Option<Blob>, dst: Option<Blob>, w: Weather)
    ensures DeleteTried(Migrate(f, src, dst, w).2)
      <==> f.apply && src.Some? && (w.statFails || dst.None?) && CopyAnswers(w)
    ensures DeleteTried(Migrate(f, src, dst, w).2) ==>
        (Migrate(f, src, dst, w).2 == Migrated <==> w.deleting == Removed)
  {
  }

  /** A rerun after a failed delete tries it again exactly when its Stat of the new key fails and its copy's
      requests succeed; when Stat works the object counts as migrated and keeps its old key. */
  lemma RerunRetriesTheDeleteExactly(f: Flags, bucket: Bucket, listing: seq<string>, weather: nat -> Weather, i: nat,
                                     again: seq<string>, later: nat -> Weather, j: nat)
    requires Distinct(listing) && Visited(f, bucket, listing, weather, i)
    requires weather(i).deleting == DeleteRefused(false)
    requires Migrate(f, At(bucket, listing[i]), At(bucket, Target(f, listing[i])), weather(i)).2 == DeleteFailed
    requires Distinct(again) && j < |again| && again[j] == listing[i]
    requires Visited(f, Run(f, bucket, listing, weather, |listing|).bucket, again, later, j)
    ensures var between := Run(f, bucket, listing, weather, |listing|).bucket;
      var after := Run(f, between, again, later, |again|).bucket;
      var verdict := VerdictAt(f, between, again, later, j);
      && (DeleteTried(verdict) <==> later(j).statFails && CopyAnswers(later(j)))
      && (!later(j).statFails ==> verdict == AlreadyMigrated && At(after, again[j]) == At(bucket, listing[i]))
  {
    var between := Run(f, bucket, listing, weather, |listing|).bucket;
    FailedDeleteLeavesBoth(f, bucket, listing, weather, i);
    VerdictFromTheStart(f, between, again, later, j);
    PairResult(f, between, again, later, j, |again|);
    DeleteIsTriedExactly(f, At(between, again[j]), At(between, Target(f, again[j])), later(j));
  }

  // ---------------------------------------------------------------- what a limit bounds

  /** What the run makes of the object at position i when it comes to it. */
  function VerdictAt(f: Flags, bucket: Bucket, listing: seq<string>, weather: nat -> Weather, i: nat): Verdict
    requires i < |listing|
  {
    var here := Run(f, bucket, listing, weather, i).bucket;
    if !Eligible(f, listing[i]) then NotEligible
    else Migrate(f, At(here, listing[i]), At(here, Target(f, listing[i])), weather(i)).2
  }

  lemma VerdictFromTheStart(f: Flags, bucket: Bucket, listing: seq<string>, weather: nat -> Weather, i: nat)
    requires Distinct(listing) && i < |listing| && Eligible(f, listing[i])
    ensures VerdictAt(f, bucket, listing, weather, i)
            == Migrate(f, At(bucket, listing[i]), At(bucket, Target(f, listing[i])), weather(i)).2
  {
    PairUntilVisited(f, bucket, listing, weather, i);
  }

  /** The object at position i, as listed, can be copied: eligible, there, nothing seen under its new key, and the
      copy's requests succeed. */
  predicate Copyable(f: Flags, bucket: Bucket, listing: seq<string>, weather: nat -> Weather, i: nat) {
    && i < |listing| && Eligible(f, listing[i]) && listing[i] in bucket
    && (weather(i).statFails || Target(f, listing[i]) !in bucket) && CopyAnswers(weather(i))
  }

  /** How many of the first n listed objects can be copied. */
  function Copyables(f: Flags, bucket: Bucket, listing: seq<string>, weather: nat -> Weather, n: nat): nat {
    if n == 0 then 0
    else Copyables(f, bucket, listing, weather, n - 1) + if Copyable(f, bucket, listing, weather, n - 1) then 1 else 0
  }

  /** Position i holds the copyable object with number m. */
  predicate IsCopyableNumber(f: Flags, bucket: Bucket, listing: seq<string>, weather: nat -> Weather, m: nat, i: nat) {
    Copyable(f, bucket, listing, weather, i) && Copyables(f, bucket, listing, weather, i + 1) == m
  }

  function CopiedBy(f: Flags, bucket: Bucket, listing: seq<string>, weather: nat -> Weather, n: nat): nat
    requires n <= |listing|
  {
    Run(f, bucket, listing, weather, n).stats.copied
  }

  /** One object of a run that has not stopped: copied if it can be, and then the only one that can stop the run. */
  lemma OneObject(f: Flags, bucket: Bucket, listing: seq<string>, weather: nat -> Weather, i: nat)
    requires f.apply && f.limit > 0 && Distinct(listing) && i < |listing|
    requires !Run(f, bucket, listing, weather, i).stopped
    ensures var copied :=
        CopiedBy(f, bucket, listing, weather, i) + if Copyable(f, bucket, listing, weather, i) then 1 else 0;
      && CopiedBy(f, bucket, listing, weather, i + 1) == copied
      && (Run(f, bucket, listing, weather, i + 1).stopped
          <==> Copyable(f, bucket, listing, weather, i) && weather(i).deleting == Removed && copied >= f.limit)
  {
    if Eligible(f, listing[i]) {
      var key, target := listing[i], Target(f, listing[i]);
      VerdictFromTheStart(f, bucket, listing, weather, i);
      DeleteIsTriedExactly(f, At(bucket, key), At(bucket, target), weather(i));
    }
  }

  /** Until the limit is reached the run goes on and copies all it can. */
  lemma {:induction false} BelowTheLimit(f: Flags, bucket: Bucket, listing: seq<string>,
                                         weather: nat -> Weather, n: nat)
    requires f.apply && f.limit > 0 && Distinct(listing) && n <= |listing|
    requires Copyables(f, bucket, listing, weather, n) < f.limit
    ensures !Run(f, bucket, listing, weather, n).stopped
    ensures CopiedBy(f, bucket, listing, weather, n) == Copyables(f, bucket, listing, weather, n)
  {
    if n > 0 {
      BelowTheLimit(f, bucket, listing, weather, n - 1);
      OneObject(f, bucket, listing, weather, n - 1);
    }
  }

  /** Never more is copied than can be. */
  lemma {:induction false} CopiesAreCopyable(f: Flags, bucket: Bucket, listing: seq<string>,
                                             weather: nat -> Weather, n: nat)
    requires f.apply && f.limit > 0 && Distinct(listing) && n <= |listing|
    ensures CopiedBy(f, bucket, listing, weather, n) <= Copyables(f, bucket, listing, weather, n)
  {
    if n > 0 {
      CopiesAreCopyable(f, bucket, listing, weather, n - 1);
      if !Run(f, bucket, listing, weather, n - 1).stopped {
        OneObject(f, bucket, listing, weather, n - 1);
      }
    }
  }

  lemma {:induction false} CopyableNumber(f: Flags, bucket: Bucket, listing: seq<string>,
                                          weather: nat -> Weather, n: nat, m: nat)
    returns (i: nat)
    requires 0 < m <= Copyables(f, bucket, listing, weather, n)
    ensures i < n && IsCopyableNumber(f, bucket, listing, weather, m, i)
  {
    if Copyables(f, bucket, listing, weather, n - 1) < m {
      i := n - 1;
    } else {
      i := CopyableNumber(f, bucket, listing, weather, n - 1, m);
    }
  }

  /** The delete of the copy that reached the limit failed: the run goes on to the next object it can copy. */
  lemma {:induction false} PastTheLimit(f: Flags, bucket: Bucket, listing: seq<string>,
                                        weather: nat -> Weather, i: nat, n: nat)
    requires f.apply && f.limit > 0 && Distinct(listing) && i < n <= |listing|
    requires IsCopyableNumber(f, bucket, listing, weather, f.limit, i) && weather(i).deleting != Removed
    ensures var copyable, copied := Copyables(f, bucket, listing, weather, n), CopiedBy(f, bucket, listing, weather, n);
      && f.limit <= copyable && (copyable > f.limit ==> copied > f.limit)
      && (copyable == f.limit ==> copied == f.limit && !Run(f, bucket, listing, weather, n).stopped)
    decreases n
  {
    if n == i + 1 {
      BelowTheLimit(f, bucket, listing, weather, i);
      OneObject(f, bucket, listing, weather, i);
    } else {
      PastTheLimit(f, bucket, listing, weather, i, n - 1);
      if !Run(f, bucket, listing, weather, n - 1).stopped {
        OneObject(f, bucket, listing, weather, n - 1);
      }
    }
  }

  /** The delete of the copy that reached the limit succeeded: the run has stopped there. */
  lemma AtTheLimit(f: Flags, bucket: Bucket, listing: seq<string>, weather: nat -> Weather, i: nat, n: nat)
    requires f.apply && f.limit > 0 && Distinct(listing) && i < n <= |listing|
    requires IsCopyableNumber(f, bucket, listing, weather, f.limit, i) && weather(i).deleting == Removed
    ensures CopiedBy(f, bucket, listing, weather, n) == f.limit
  {
    BelowTheLimit(f, bucket, listing, weather, i);
    OneObject(f, bucket, listing, weather, i);
    StoppedStays(f, bucket, listing, weather, i + 1, n);
  }

  /** A run with a limit copies more objects than that exactly when more can be copied and the delete of the one
      that reaches the limit fails. */
  lemma CopiesExceedTheLimitExactly(f: Flags, bucket: Bucket, listing: seq<string>, weather: nat -> Weather, n: nat)
    requires f.apply && f.limit > 0 && Distinct(listing) && n <= |listing|
    ensures Run(f, bucket, listing, weather, n).stats.copied > f.limit
      <==> && Copyables(f, bucket, listing, weather, n) > f.limit
           && exists i: nat ::
                IsCopyableNumber(f, bucket, listing, weather, f.limit, i) && weather(i).deleting != Removed
  {
    CopiesAreCopyable(f, bucket, listing, weather, n);
    if Copyables(f, bucket, listing, weather, n) > f.limit {
      var i := CopyableNumber(f, bucket, listing, weather, n, f.limit);
      forall j: nat | IsCopyableNumber(f, bucket, listing, weather, f.limit, j) ensures j == i {
        CopyableNumberIsUnique(f, bucket, listing, weather, f.limit, i, j);
      }
      if weather(i).deleting == Removed {
        AtTheLimit(f, bucket, listing, weather, i, n);
      } else {
        PastTheLimit(f, bucket, listing, weather, i, n);
      }
    }
  }

  lemma {:induction false} CopyablesAccumulate(f: Flags, bucket: Bucket, listing: seq<string>,
                                               weather: nat -> Weather, i: nat, n: nat)
    requires i <= n
    ensures Copyables(f, bucket, listing, weather, i) <= Copyables(f, bucket, listing, weather, n)
  {
    if i < n {
      CopyablesAccumulate(f, bucket, listing, weather, i, n - 1);
    }
  }

  lemma CopyableNumberIsUnique(f: Flags, bucket: Bucket, listing: seq<string>,
                               weather: nat -> Weather, m: nat, i: nat, j: nat)
    requires IsCopyableNumber(f, bucket, listing, weather, m, i) && IsCopyableNumber(f, bucket, listing, weather, m, j)
    ensures i == j
  {
    if i < j {
      CopyablesAccumulate(f, bucket, listing, weather, i + 1, j);
    } else if j < i {
      CopyablesAccumulate(f, bucket, listing, weather, j + 1, i);
    }
  }

  /** A run with --limit=1 that copies two objects. */
  lemma LimitIsExceeded(f: Flags, bucket: Bucket, a: string, b: string, weather: nat -> Weather)
    requires f.apply && f.limit == 1 && a != b && Eligible(f, a) && Eligible(f, b)
    requires a in bucket && b in bucket && Target(f, a) !in bucket && Target(f, b) !in bucket
    requires weather(0) == Weather(false, Copied, false, false, false, DeleteRefused(false))
    requires weather(1) == Weather(false, Copied, false, false, false, Removed)
    ensures Run(f, bucket, [a, b], weather, 2).stats.copied == 2
  {
    var listing := [a, b];
    assert Copyables(f, bucket, listing, weather, 0) == 0 && IsCopyableNumber(f, bucket, listing, weather, 1, 0);
    assert Copyables(f, bucket, listing, weather, 2) == 2;
    CopiesExceedTheLimitExactly(f, bucket, listing, weather, 2);
    CopiesAreCopyable(f, bucket, listing, weather, 2);
  }

  // ---------------------------------------------------------------- the cutover

  lemma {:induction false} LessIsNumeric(a: string, b: string)
    requires AllDigits(a) && AllDigits(b) && |a| == |b|
    ensures Order.Less(a, b) <==> DigitsValue(a) < DigitsValue(b)
  {
    if a != "" {
      var n := |a| - 1;
      LessIsNumeric(a[..n], b[..n]);
      SameNumber(a[..n], b[..n]);
      LessByLast(a, b);
    }
  }

  lemma {:induction false} SameNumber(a: string, b: string)
    requires AllDigits(a) && AllDigits(b) && |a| == |b|
    ensures DigitsValue(a) == DigitsValue(b) <==> a == b
  {
    if a != "" {
      var n := |a| - 1;
      SameNumber(a[..n], b[..n]);
      assert a == a[..n] + [a[n]] && b == b[..n] + [b[n]];
    }
  }

  lemma LessByLast(a: string, b: string)
    requires |a| == |b| > 0
    ensures var n := |a| - 1;
      Order.Less(a, b) <==> Order.Less(a[..n], b[..n]) || (a[..n] == b[..n] && a[n] < b[n])
  {
    var n := |a| - 1;
    if Order.Less(a, b) {
      var k: nat :| k < |b| && Order.SmallerAt(a, b, k);
      if k < n {
        assert a[..n][..k] == a[..k] && b[..n][..k] == b[..k];
        assert Order.SmallerAt(a[..n], b[..n], k);
      }
    }
    if Order.Less(a[..n], b[..n]) {
      var k: nat :| k < n && Order.SmallerAt(a[..n], b[..n], k);
      assert a[..n][..k] == a[..k] && b[..n][..k] == b[..k];
      assert Order.SmallerAt(a, b, k);
    }
    if a[..n] == b[..n] && a[n] < b[n] {
      assert Order.SmallerAt(a, b, n);
    }
  }

  lemma LessStartsNoLater(a: string, b: string)
    requires a != "" && b != "" && Order.Less(a, b)
    ensures a[0] <= b[0]
  {
    var k: nat :| k < |b| && Order.SmallerAt(a, b, k);
    if k > 0 {
      assert a[0] == a[..k][0] && b[0] == b[..k][0];
    }
  }

  /** The cutover compares years and months as digits: exactly the legacy keys with a smaller number are
      migrated.  With the default 0704 the months of the 1990s, 9108 to 9912, are therefore left alone. */
  lemma EligibleExactlyBelowTheCutover(f: Flags, l: Legacy)
    requires Shape(l) && |f.yymmCap| == 4 && AllDigits(f.yymmCap)
    ensures Eligible(f, OldKey(l)) <==> DigitsValue(l.yymm) < DigitsValue(f.yymmCap)
    ensures f.yymmCap == "0704" && l.yymm[0] == '9' ==> !Eligible(f, OldKey(l))
  {
    ParseOfOldKey(l);
    LessIsNumeric(l.yymm, f.yymmCap);
    if Eligible(f, OldKey(l)) {
      LessStartsNoLater(l.yymm, f.yymmCap);
    }
  }

  /** A run that loses content: Stat fails, and the server-side copy replaces a different object. */
  lemma ClashLosesContent(l: Legacy, older: Blob, newer: Blob, weather: nat -> Weather)
    requires Shape(l) && l.yymm == "0207" && older != newer
    requires weather(0) == Weather(true, Copied, false, false, false, Removed)
    ensures var f := Flags("0704", "quant-ph", 0, true);
      var bucket := map[OldKey(l) := older, NewKey(l, "quant-ph") := newer];
      !Kept(f, bucket, Run(f, bucket, [OldKey(l)], weather, 1).bucket, NewKey(l, "quant-ph"))
  {
    var f := Flags("0704", "quant-ph", 0, true);
    var key, target := OldKey(l), NewKey(l, "quant-ph");
    var bucket := map[key := older, target := newer];
    ParseOfOldKey(l);
    NewKeysAreNotLegacy(l, "quant-ph");
    assert Order.SmallerAt("0207", "0704", 1);
    assert !Run(f, bucket, [key], weather, 0).stopped;
    VisitedPairIsKeptExactly(f, bucket, [key], weather, 0);
    PairResult(f, bucket, [key], weather, 0, 1);
  }
}
