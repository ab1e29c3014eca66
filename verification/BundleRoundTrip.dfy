/** What Pack writes, openBundle accepts and gives back. */
module BundleRoundTrip {
  import opened Bundle
  import opened BundlePack
  import opened Hex
  import opened Text
  import opened Options

  /** The ZIP reader reads what the writer wrote. */
  ghost predicate CodecRoundTrips(env: Env) {
    forall a: Archive :: env.encode(a).Some? ==> env.decode(env.encode(a).value) == Some(a)
  }

  /** Written from the visit at i: the k-th entry. */
  ghost predicate WrittenFrom(visits: seq<Visit>, k: nat, i: nat)
    requires Placed(visits)
  {
    && i < |visits| && k < |FileEntries(visits)|
    && visits[i].node.File? && FileEntries(visits)[k] == EntryOf(visits[i])
  }

  lemma {:induction false} EveryEntryIsWritten(visits: seq<Visit>, k: nat) returns (i: nat)
    requires Placed(visits) && k < |FileEntries(visits)|
    ensures WrittenFrom(visits, k, i)
  {
    var before := visits[..|visits| - 1];
    if k < |FileEntries(before)| {
      i := EveryEntryIsWritten(before, k);
      assert before[i] == visits[i];
    } else {
      i := |visits| - 1;
    }
  }

  lemma {:induction false} EveryFileIsWritten(visits: seq<Visit>, i: nat) returns (k: nat)
    requires Placed(visits) && i < |visits| && visits[i].node.File?
    ensures WrittenFrom(visits, k, i)
  {
    var before := visits[..|visits| - 1];
    if i < |before| {
      k := EveryFileIsWritten(before, i);
    } else {
      k := |FileEntries(before)|;
    }
  }

  /** Different positions are written from different visits. */
  lemma {:induction false} EntriesAreUnique(visits: seq<Visit>)
    requires Placed(visits)
    requires forall i :: 0 <= i < |visits| && visits[i].node.File? ==> NameOf(EntryOf(visits[i])) == PathOf(visits[i])
    requires forall i, j :: 0 <= i < j < |visits| ==> PathOf(visits[i]) != PathOf(visits[j])
    ensures Unique(FileEntries(visits))
  {
    if visits != [] {
      var last := |visits| - 1;
      var before := visits[..last];
      EntriesAreUnique(before);
      if visits[last].node.File? {
        forall k | 0 <= k < |FileEntries(before)|
          ensures NameOf(FileEntries(before)[k]) != PathOf(visits[last])
        {
          var i := EveryEntryIsWritten(before, k);
          assert before[i] == visits[i];
        }
      }
    }
  }

  lemma PathSplitsToParts(f: Forest, v: Visit)
    requires Finds([], f, v)
    ensures Split(PathOf(v), '/') == v.parts && Lookup(f, Split(PathOf(v), '/')) == Some(v.node)
  {
    assert v.parts[0..] == v.parts;
    SplitOfJoin(v.parts, '/');
  }

  lemma {:induction false} SplitOfPrefix(a: seq<string>, rest: string)
    requires a != [] && forall i :: 0 <= i < |a| ==> '/' !in a[i]
    ensures Split(Join(a, '/') + ['/'] + rest, '/') == a + Split(rest, '/')
  {
    if |a| == 1 {
      SplitAtSeparator(a[0], rest);
    } else {
      var tail := Join(a[1..], '/') + ['/'] + rest;
      JoinThenRest(a, rest);
      SplitAtSeparator(a[0], tail);
      SplitOfPrefix(a[1..], rest);
      assert [a[0]] + (a[1..] + Split(rest, '/')) == a + Split(rest, '/');
    }
  }

  lemma SplitAtSeparator(first: string, tail: string)
    requires '/' !in first
    ensures Split(first + ['/'] + tail, '/') == [first] + Split(tail, '/')
  {
    CutAtSeparator(first, '/', tail);
  }

  lemma JoinThenRest(a: seq<string>, rest: string)
    requires |a| > 1
    ensures Join(a, '/') + ['/'] + rest == a[0] + ['/'] + (Join(a[1..], '/') + ['/'] + rest)
  {
  }

  /** A path above another belongs to a directory of the tree. */
  lemma AboveMeansDirectory(f: Forest, v: Visit, w: Visit)
    requires Finds([], f, v) && Finds([], f, w) && Above(PathOf(v), PathOf(w))
    ensures v.node.Dir?
  {
    var p, q := PathOf(v), PathOf(w);
    var rest := q[|p| + 1..];
    assert q == p + ['/'] + rest;
    SplitOfPrefix(v.parts, rest);
    PathSplitsToParts(f, v);
    PathSplitsToParts(f, w);
    assert w.parts == v.parts + Split(rest, '/');
    BelowMeansDirectory(f, v.parts, Split(rest, '/'));
  }

  lemma PathsAreDistinct(f: Forest, i: nat, j: nat)
    requires IsFileSystem(f) && i < j < |Walk([], f)|
    ensures PathOf(Walk([], f)[i]) != PathOf(Walk([], f)[j])
  {
    WalkFinds([], f, i);
    WalkFinds([], f, j);
    PathSplitsToParts(f, Walk([], f)[i]);
    PathSplitsToParts(f, Walk([], f)[j]);
    WalkIsDistinct([], f, i, j);
  }

  ghost predicate Tidy(f: Forest) {
    IsFileSystem(f) && VisitsOk(Walk([], f))
  }

  lemma PackedEntryOk(f: Forest, k: nat) returns (i: nat)
    requires Tidy(f) && k < |FileEntries(Walk([], f))|
    ensures WrittenFrom(Walk([], f), k, i) && Finds([], f, Walk([], f)[i])
    ensures EntryOk(FileEntries(Walk([], f))[k]) && Mode(FileEntries(Walk([], f))[k]) == Regular
    ensures NameOf(FileEntries(Walk([], f))[k]) == PathOf(Walk([], f)[i])
  {
    i := EveryEntryIsWritten(Walk([], f), k);
    assert VisitOk(Walk([], f)[i]);
    SafeFileIsRegular(Walk([], f)[i]);
    WalkFinds([], f, i);
  }

  lemma PackedIsUnique(f: Forest)
    requires Tidy(f)
    ensures Unique(FileEntries(Walk([], f)))
  {
    var visits := Walk([], f);
    forall i | 0 <= i < |visits| && visits[i].node.File? ensures NameOf(EntryOf(visits[i])) == PathOf(visits[i]) {
      assert VisitOk(visits[i]);
      SafeFileIsRegular(visits[i]);
    }
    forall i, j | 0 <= i < j < |visits| ensures PathOf(visits[i]) != PathOf(visits[j]) {
      PathsAreDistinct(f, i, j);
    }
    EntriesAreUnique(visits);
  }

  lemma PackedFileIsAboveNothing(f: Forest, k: nat, j: nat)
    requires Tidy(f) && k < |FileEntries(Walk([], f))| && j < |FileEntries(Walk([], f))|
    ensures !Above(NameOf(FileEntries(Walk([], f))[k]), NameOf(FileEntries(Walk([], f))[j]))
  {
    var i := PackedEntryOk(f, k);
    var i' := PackedEntryOk(f, j);
    if Above(PathOf(Walk([], f)[i]), PathOf(Walk([], f)[i'])) {
      AboveMeansDirectory(f, Walk([], f)[i], Walk([], f)[i']);
    }
  }

  lemma PackedHasNoCollision(f: Forest)
    requires Tidy(f)
    ensures NoCollision(FileEntries(Walk([], f)))
  {
    var entries := FileEntries(Walk([], f));
    forall j, k | 0 <= j < |entries| && 0 <= k < |entries| ensures !Above(NameOf(entries[k]), NameOf(entries[j])) {
      PackedFileIsAboveNothing(f, k, j);
    }
  }

  /** The opened files are the tree's regular files, path for path and byte for byte. */
  lemma PackedFiles(f: Forest, path: string)
    requires Tidy(f)
    ensures path in FilesOf(FileEntries(Walk([], f))) <==> FileAt(f, path).Some?
    ensures FileAt(f, path).Some? ==> FilesOf(FileEntries(Walk([], f)))[path] == FileAt(f, path).value
  {
    var visits := Walk([], f);
    var entries := FileEntries(visits);
    PackedIsUnique(f);
    forall k | 0 <= k < |entries| ensures entries[k].content.Some? {
      var i := PackedEntryOk(f, k);
    }
    FilesAreTheRegularEntries(entries);
    if path in FilesOf(entries) {
      var k :| 0 <= k < |entries| && Mode(entries[k]) == Regular && NameOf(entries[k]) == path;
      var i := PackedEntryOk(f, k);
      PathSplitsToParts(f, visits[i]);
    }
    if FileAt(f, path).Some? {
      FoundFileIsOpened(f, path);
    }
  }

  lemma FoundFileIsOpened(f: Forest, path: string)
    requires Tidy(f) && FileAt(f, path).Some? && Unique(FileEntries(Walk([], f)))
    requires forall k :: 0 <= k < |FileEntries(Walk([], f))| ==> FileEntries(Walk([], f))[k].content.Some?
    ensures path in FilesOf(FileEntries(Walk([], f)))
    ensures FilesOf(FileEntries(Walk([], f)))[path] == FileAt(f, path).value
  {
    var visits := Walk([], f);
    var parts := Split(path, '/');
    FilesAreTheRegularEntries(FileEntries(visits));
    WalkVisitsAll([], f, parts);
    assert [] + parts == parts;
    var i: nat :| i < |visits| && visits[i] == Visit(parts, Lookup(f, parts).value);
    JoinOfSplit(path, '/');
    var k := EveryFileIsWritten(visits, i);
    var i' := PackedEntryOk(f, k);
  }

  lemma NonemptySurvives(f: Forest, path: string)
    requires Tidy(f) && HasNonempty(f, path)
    ensures Nonempty(FilesOf(FileEntries(Walk([], f))), path)
  {
    var parts := Split(path, '/');
    WalkVisitsAll([], f, parts);
    assert [] + parts == parts;
    var i: nat :| i < |Walk([], f)| && Walk([], f)[i] == Visit(parts, Lookup(f, parts).value);
    assert VisitOk(Walk([], f)[i]);
    PackedFiles(f, path);
  }

  lemma ScriptSurvives(f: Forest, i: nat)
    requires Tidy(f) && i < |Walk([], f)| && IsScript(Walk([], f)[i])
    ensures AssetScript(PathOf(Walk([], f)[i])) && Nonempty(FilesOf(FileEntries(Walk([], f))), PathOf(Walk([], f)[i]))
  {
    var v := Walk([], f)[i];
    WalkFinds([], f, i);
    PathSplitsToParts(f, v);
    assert VisitOk(v);
    NonemptySurvives(f, PathOf(v));
    assert v.parts[1..] == [v.parts[1]] && Join([v.parts[1]], '/') == v.parts[1];
    assert PathOf(v) == v.parts[0] + ['/'] + Join(v.parts[1..], '/');
    assert PathOf(v) == "assets" + ['/'] + v.parts[1] == "assets/" + v.parts[1];
  }

  lemma PackedIsComplete(f: Forest)
    requires Tidy(f) && CompleteTree(f)
    ensures Complete(FilesOf(FileEntries(Walk([], f))))
  {
    NonemptySurvives(f, "index.html");
    NonemptySurvives(f, "doc/index.html");
    NonemptySurvives(f, "devdoc/dev/index.html");
    var i :| 0 <= i < |Walk([], f)| && IsScript(Walk([], f)[i]);
    ScriptSurvives(f, i);
  }

  /** Every tree Pack accepts comes back from openBundle, given its digest and canonical version and an archive
      within the size limit: accepted, with exactly the tree's files and bytes. */
  lemma PackThenOpen(env: Env, tree: Forest, version: string, path: string)
    requires CodecRoundTrips(env) && IsFileSystem(tree) && Packable(env, tree, version)
    requires var canonical := ReleaseVersion.Canonical(version).value;
             |env.encode(ArchiveOf(tree, canonical)).value| <= MAX_BUNDLE_SIZE
    ensures var canonical := ReleaseVersion.Canonical(version).value;
            var data := env.encode(ArchiveOf(tree, canonical)).value;
            && Acceptable(env, data, env.sha256(data), canonical)
            && var files := FilesOf(env.decode(data).value.entries);
               && (path in files <==> FileAt(tree, path).Some?)
               && (path in files ==> files[path] == FileAt(tree, path).value)
  {
    var entries := FileEntries(Walk([], tree));
    assert Tidy(tree);
    forall k | 0 <= k < |entries| ensures EntryOk(entries[k]) {
      var i := PackedEntryOk(tree, k);
    }
    PackedIsUnique(tree);
    PackedHasNoCollision(tree);
    PackedIsComplete(tree);
    PackedFiles(tree, path);
  }

  /** An archive is bound to its version: no other version opens it. */
  lemma OtherVersionsRefuse(env: Env, tree: Forest, version: string, other: string)
    requires CodecRoundTrips(env) && Packable(env, tree, version)
    requires other != ReleaseVersion.Canonical(version).value
    ensures var data := env.encode(ArchiveOf(tree, ReleaseVersion.Canonical(version).value)).value;
            forall digest: Bytes :: !Acceptable(env, data, digest, other)
  {
    var canonical := ReleaseVersion.Canonical(version).value;
    assert Comment(canonical)[|"qatlas-ui-v1:"|..] == canonical;
    assert Comment(other)[|"qatlas-ui-v1:"|..] == other;
  }
}
