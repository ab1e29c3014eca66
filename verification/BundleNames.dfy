/** Which names, entries, archives and trees the bundle code takes, said about plain path elements and byte counts. */
module BundleNames {
  import opened Hex
  import opened Text
  import opened Options
  import opened Bundle
  import opened BundlePack
  import ReleaseVersion

  // ---------------------------------------------------------------- safe names

  predicate PlainElement(part: string) {
    && part != "" && part != "." && part != ".."
    && forall c :: c in part ==> c !in ['/', '\\', ':', '\0', '\r', '\n']
  }

  /** One or more plain elements with slashes between them. */
  ghost predicate PlainPath(name: string, parts: seq<string>) {
    parts != [] && (forall i :: 0 <= i < |parts| ==> PlainElement(parts[i])) && name == Join(parts, '/')
  }

  lemma {:induction false} JoinedCharacters(parts: seq<string>, x: char)
    requires parts != [] && x in Join(parts, '/')
    ensures x == '/' || exists i :: 0 <= i < |parts| && x in parts[i]
  {
    if |parts| > 1 && x != '/' && x !in parts[0] {
      JoinedCharacters(parts[1..], x);
      var i :| 0 <= i < |parts[1..]| && x in parts[1..][i];
      assert x in parts[i + 1];
    }
  }

  lemma {:induction false} PartsAreInside(parts: seq<string>, i: nat, x: char)
    requires i < |parts| && x in parts[i]
    ensures x in Join(parts, '/')
  {
    if i > 0 {
      assert parts[1..][i - 1] == parts[i];
      PartsAreInside(parts[1..], i - 1, x);
    }
  }

  lemma PlainPathIsSafe(name: string, parts: seq<string>)
    requires PlainPath(name, parts)
    ensures Safe(name)
  {
    SplitOfJoin(parts, '/');
    forall i | 0 <= i < |name| ensures name[i] !in ['\\', ':', '\0', '\r', '\n'] {
      JoinedCharacters(parts, name[i]);
    }
    CutWithoutSeparator(".", '/');
    assert name == "." ==> parts == ["."];
  }

  lemma SafeIsPlainPath(name: string)
    requires Safe(name)
    ensures PlainPath(name, Split(name, '/'))
  {
    var parts := Split(name, '/');
    JoinOfSplit(name, '/');
    forall i | 0 <= i < |parts| ensures PlainElement(parts[i]) {
      assert parts[i] in parts;
      forall c | c in parts[i] ensures c !in ['/', '\\', ':', '\0', '\r', '\n'] {
        PartsAreInside(parts, i, c);
      }
    }
  }

  /** The names that pass are the paths of plain elements, and no others. */
  lemma SafeExactly(name: string)
    ensures Safe(name) <==> exists parts :: PlainPath(name, parts)
  {
    if Safe(name) {
      SafeIsPlainPath(name);
    }
    if parts :| PlainPath(name, parts) {
      PlainPathIsSafe(name, parts);
    }
  }

  lemma FirstPart(part: string, after: string)
    requires '/' !in part && (after == "" || after[0] == '/')
    ensures part in Split(part + after, '/')
  {
    if after == "" {
      assert part + after == part;
      CutWithoutSeparator(part, '/');
    } else {
      assert part + after == part + ['/'] + after[1..];
      CutAtSeparator(part, '/', after[1..]);
    }
  }

  lemma LaterPart(first: string, tail: string, part: string)
    requires '/' !in first && part in Split(tail, '/')
    ensures part in Split(first + ['/'] + tail, '/')
  {
    CutAtSeparator(first, '/', tail);
  }

  lemma UpToFirstSlash(before: string) returns (first: string, rest: string)
    requires before != "" && before[|before| - 1] == '/'
    ensures before == first + ['/'] + rest && '/' !in first && |rest| < |before|
    ensures rest == "" || rest[|rest| - 1] == '/'
  {
    CutRebuilds(before, '/');
    CutLength(before, '/');
    var (head, tail) := Cut(before, '/');
    first, rest := head, tail.value;
  }

  lemma Regroup(first: string, rest: string, part: string, after: string)
    ensures first + ['/'] + rest + part + after == first + ['/'] + (rest + part + after)
  {
  }

  /** What stands between slashes, or between one and an end of the name, is one of its parts. */
  lemma {:induction false} BetweenSlashesIsAPart(before: string, part: string, after: string)
    requires before == "" || before[|before| - 1] == '/'
    requires '/' !in part && (after == "" || after[0] == '/')
    ensures part in Split(before + part + after, '/')
    decreases |before|
  {
    if before == "" {
      assert before + part + after == part + after;
      FirstPart(part, after);
    } else {
      var first, rest := UpToFirstSlash(before);
      BetweenSlashesIsAPart(rest, part, after);
      LaterPart(first, rest + part + after, part);
      Regroup(first, rest, part, after);
    }
  }

  /** "/.." at position i, at the end of the name or before a slash. */
  predicate GoesUpAt(name: string, i: nat) {
    i + 3 <= |name| && name[i] == '/' && name[i + 1] == '.' && name[i + 2] == '.'
    && (i + 3 == |name| || name[i + 3] == '/')
  }

  /** Names that lead out of the directory they are opened in, or mean another one on some system. */
  predicate Escapes(name: string) {
    || name == ".." || "../" <= name || "/" <= name || '\\' in name || ':' in name
    || exists i: nat :: i < |name| && GoesUpAt(name, i)
  }

  lemma SafePartIsNotDots(before: string, part: string, after: string)
    requires Safe(before + part + after) && '/' !in part
    requires (before == "" || before[|before| - 1] == '/') && (after == "" || after[0] == '/')
    ensures part != ".." && part != ""
  {
    BetweenSlashesIsAPart(before, part, after);
  }

  lemma SafeDoesNotStartUp(name: string)
    requires Safe(name)
    ensures name != ".." && !("../" <= name) && !("/" <= name)
  {
    if name == ".." {
      assert name == "" + ".." + "";
      SafePartIsNotDots("", "..", "");
    } else if "../" <= name {
      assert name == "" + ".." + name[2..];
      SafePartIsNotDots("", "..", name[2..]);
    } else if "/" <= name {
      assert name == "" + "" + name;
      SafePartIsNotDots("", "", name);
    }
  }

  lemma SafeDoesNotGoUp(name: string, i: nat)
    requires Safe(name)
    ensures !GoesUpAt(name, i)
  {
    if GoesUpAt(name, i) {
      var before, after := name[..i + 1], name[i + 3..];
      assert name[i + 1..i + 3] == "..";
      assert name == before + ".." + after;
      SafePartIsNotDots(before, "..", after);
    }
  }

  lemma SafeNamesStayInside(name: string)
    requires Safe(name)
    ensures !Escapes(name)
  {
    SafeDoesNotStartUp(name);
    forall i: nat | i < |name| ensures !GoesUpAt(name, i) {
      SafeDoesNotGoUp(name, i);
    }
  }

  /** No entry of an archive openBundle accepts leads out of the tree. */
  lemma AcceptedNamesStayInside(env: Env, data: Bytes, digest: Bytes, version: string, i: nat)
    requires Acceptable(env, data, digest, version) && i < |env.decode(data).value.entries|
    ensures var e := env.decode(data).value.entries[i];
      !Escapes(NameOf(e)) && exists parts :: PlainPath(NameOf(e), parts)
  {
    var e := env.decode(data).value.entries[i];
    SafeNamesStayInside(NameOf(e));
    SafeExactly(NameOf(e));
  }

  // ---------------------------------------------------------------- entries and trees

  /** What an entry must be: a directory without bytes, or a file of at most 16 MB whose bytes could be read, under
      a path of plain elements; a trailing slash always means a directory. */
  ghost predicate ReadsAs(e: Entry, parts: seq<string>) {
    if |e.name| > 0 && e.name[|e.name| - 1] == '/' then
      PlainPath(e.name[..|e.name| - 1], parts) && e.attributes != Other && e.size == 0
    else
      && PlainPath(e.name, parts)
      && (|| (e.attributes == Directory && e.size == 0)
          || (e.attributes == Regular && e.size <= 16777216 && e.content.Some? && |e.content.value| == e.size))
  }

  ghost predicate Readable(e: Entry) {
    exists parts :: ReadsAs(e, parts)
  }

  lemma EntryAcceptedExactly(e: Entry)
    ensures EntryOk(e) <==> Readable(e)
  {
    SafeExactly(NameOf(e));
    if EntryOk(e) {
      var parts :| PlainPath(NameOf(e), parts);
      assert ReadsAs(e, parts);
    }
    if parts :| ReadsAs(e, parts) {
      assert PlainPath(NameOf(e), parts);
    }
  }

  /** What a packed tree must hold at a path. */
  predicate Fits(parts: seq<string>, node: Node) {
    && (forall i :: 0 <= i < |parts| ==> PlainElement(parts[i]))
    && match node
       case Dir(_) => true
       case File(size, content) => size <= 16777216 && content.Some? && |content.value| == size
       case Special => false
  }

  lemma VisitFitsExactly(f: Forest, v: Visit)
    requires Finds([], f, v)
    ensures VisitOk(v) <==> Fits(v.parts, v.node)
  {
    SplitOfJoin(v.parts, '/');
    if Safe(PathOf(v)) {
      SafeIsPlainPath(PathOf(v));
    }
    if Fits(v.parts, v.node) {
      PlainPathIsSafe(PathOf(v), v.parts);
    }
  }

  ghost predicate EverythingFits(f: Forest) {
    forall parts :: Lookup(f, parts).Some? ==> Fits(parts, Lookup(f, parts).value)
  }

  predicate EveryVisitOk(f: Forest) {
    forall i :: 0 <= i < |Walk([], f)| ==> VisitOk(Walk([], f)[i])
  }

  lemma WhatIsVisitedFits(f: Forest, parts: seq<string>)
    requires IsFileSystem(f) && EveryVisitOk(f) && Lookup(f, parts).Some?
    ensures Fits(parts, Lookup(f, parts).value)
  {
    var visits := Walk([], f);
    WalkVisitsAll([], f, parts);
    assert [] + parts == parts;
    var i :| 0 <= i < |visits| && visits[i] == Visit(parts, Lookup(f, parts).value);
    WalkFinds([], f, i);
    VisitFitsExactly(f, visits[i]);
  }

  lemma WhatFitsIsVisitedWell(f: Forest, i: nat)
    requires IsFileSystem(f) && EverythingFits(f) && i < |Walk([], f)|
    ensures VisitOk(Walk([], f)[i])
  {
    var v := Walk([], f)[i];
    WalkFinds([], f, i);
    assert v.parts[0..] == v.parts;
    assert Lookup(f, v.parts) == Some(v.node);
    VisitFitsExactly(f, v);
  }

  /** Every visit of the walk is in order exactly when everything the tree holds fits, wherever it is. */
  lemma TreeFitsExactly(f: Forest)
    requires IsFileSystem(f)
    ensures EveryVisitOk(f) <==> EverythingFits(f)
  {
    if EveryVisitOk(f) {
      forall parts | Lookup(f, parts).Some? ensures Fits(parts, Lookup(f, parts).value) {
        WhatIsVisitedFits(f, parts);
      }
    }
    if EverythingFits(f) {
      forall i | 0 <= i < |Walk([], f)| ensures VisitOk(Walk([], f)[i]) {
        WhatFitsIsVisitedWell(f, i);
      }
    }
  }

  /** No path of a packed tree leads out of it. */
  lemma PackedPathsStayInside(env: Env, tree: Forest, version: string, parts: seq<string>)
    requires IsFileSystem(tree) && Packable(env, tree, version) && Lookup(tree, parts).Some?
    ensures parts != [] && PlainPath(Join(parts, '/'), parts) && !Escapes(Join(parts, '/'))
  {
    LookupIsNamed(tree, parts);
    TreeFitsExactly(tree);
    PlainPathIsSafe(Join(parts, '/'), parts);
    SafeNamesStayInside(Join(parts, '/'));
  }

  // ---------------------------------------------------------------- the whole archive

  /** All bytes of the regular files, one after another. */
  function AllBytes(entries: seq<Entry>): Bytes {
    if entries == [] then []
    else
      var e := entries[|entries| - 1];
      AllBytes(entries[..|entries| - 1])
      + if e.attributes == Regular && TrimSuffix(e.name, "/") == e.name && e.content.Some?
        then e.content.value else []
  }

  lemma {:induction false} TotalIsAllBytes(entries: seq<Entry>)
    requires forall i :: 0 <= i < |entries| ==> EntryOk(entries[i])
    ensures Total(entries) == |AllBytes(entries)|
  {
    if entries != [] {
      TotalIsAllBytes(entries[..|entries| - 1]);
      assert EntryOk(entries[|entries| - 1]);
    }
  }

  /** No two entries have the same name, with or without a trailing slash. */
  predicate NamesDiffer(entries: seq<Entry>) {
    forall i, j :: 0 <= i < j < |entries| ==> TrimSuffix(entries[i].name, "/") != TrimSuffix(entries[j].name, "/")
  }

  /** What stands above another entry is written as a directory, with a trailing slash. */
  predicate ParentsAreDirectories(entries: seq<Entry>) {
    forall i, j :: 0 <= i < |entries| && 0 <= j < |entries| && NameOf(entries[i]) + "/" <= NameOf(entries[j])
      ==> entries[i].name == NameOf(entries[i]) + "/"
  }

  lemma WithoutSlash(p: string)
    ensures TrimSuffix(p + "/", "/") == p
  {
    assert (p + "/")[|p|..] == "/";
  }

  lemma SameNameSameEntry(entries: seq<Entry>, i: nat, k: nat)
    requires Unique(entries) && i < |entries| && k < |entries| && NameOf(entries[i]) == NameOf(entries[k])
    ensures i == k
  {
  }

  lemma ListedParentHasSlash(entries: seq<Entry>, i: nat, j: nat)
    requires Unique(entries) && NoCollision(entries) && i < |entries| && j < |entries|
    requires Above(NameOf(entries[i]), NameOf(entries[j]))
    ensures entries[i].name == NameOf(entries[i]) + "/"
  {
    var p := NameOf(entries[i]);
    assert Named(entries, p);
    assert ListedAsDirectory(entries, p);
    var k :| 0 <= k < |entries| && entries[k].name == p + "/";
    WithoutSlash(p);
    SameNameSameEntry(entries, i, k);
  }

  lemma CollisionsExactly(entries: seq<Entry>)
    requires Unique(entries)
    ensures NoCollision(entries) <==> ParentsAreDirectories(entries)
  {
    if NoCollision(entries) {
      forall i, j | 0 <= i < |entries| && 0 <= j < |entries| && NameOf(entries[i]) + "/" <= NameOf(entries[j])
        ensures entries[i].name == NameOf(entries[i]) + "/"
      {
        ListedParentHasSlash(entries, i, j);
      }
    }
    if ParentsAreDirectories(entries) {
      forall j, p | 0 <= j < |entries| && Above(p, NameOf(entries[j])) && Named(entries, p)
        ensures ListedAsDirectory(entries, p)
      {
        var i :| 0 <= i < |entries| && NameOf(entries[i]) == p;
        assert entries[i].name == p + "/";
      }
    }
  }

  /** The pages and the script every bundle has. */
  predicate HasPages(files: map<string, Bytes>, script: string) {
    && (forall page :: page in ["index.html", "doc/index.html", "devdoc/dev/index.html"] ==>
          page in files && |files[page]| > 0)
    && '/' !in script && TrimSuffix(script, ".js") + ".js" == script
    && "assets/" + script in files && |files["assets/" + script]| > 0
  }

  lemma CompleteHasPages(files: map<string, Bytes>) returns (script: string)
    requires Complete(files)
    ensures HasPages(files, script)
  {
    var name :| name in files && AssetScript(name) && files[name] != [];
    script := name[7..];
    assert "assets/" + script == name;
    assert script[|script| - 3..] == name[|name| - 3..];
  }

  lemma HasPagesIsComplete(files: map<string, Bytes>, script: string)
    requires HasPages(files, script)
    ensures Complete(files)
  {
    var pages := ["index.html", "doc/index.html", "devdoc/dev/index.html"];
    assert pages[0] in pages && pages[1] in pages && pages[2] in pages;
    var name := "assets/" + script;
    assert name[7..] == script && name[|name| - 3..] == script[|script| - 3..];
    assert AssetScript(name);
  }

  /** What the entries of an archive must be, one by one and together. */
  ghost predicate EntriesFit(entries: seq<Entry>) {
    && |entries| <= 20000
    && (forall i :: 0 <= i < |entries| ==> Readable(entries[i]))
    && NamesDiffer(entries)
    && |AllBytes(entries)| <= 268435456 && ParentsAreDirectories(entries)
    && exists script :: HasPages(FilesOf(entries), script)
  }

  lemma FittingEntriesAreAccepted(entries: seq<Entry>)
    requires EntriesFit(entries)
    ensures AcceptableEntries(entries)
  {
    forall i | 0 <= i < |entries| ensures EntryOk(entries[i]) {
      EntryAcceptedExactly(entries[i]);
    }
    assert Unique(entries);
    TotalIsAllBytes(entries);
    CollisionsExactly(entries);
    var script :| HasPages(FilesOf(entries), script);
    HasPagesIsComplete(FilesOf(entries), script);
  }

  lemma AcceptedEntriesFit(entries: seq<Entry>)
    requires AcceptableEntries(entries)
    ensures EntriesFit(entries)
  {
    forall i | 0 <= i < |entries| ensures Readable(entries[i]) {
      EntryAcceptedExactly(entries[i]);
    }
    TotalIsAllBytes(entries);
    CollisionsExactly(entries);
    var script := CompleteHasPages(FilesOf(entries));
  }

  /** openBundle accepts exactly these archives. */
  lemma ArchiveAcceptedExactly(env: Env, data: Bytes, digest: Bytes, version: string)
    ensures Acceptable(env, data, digest, version) <==>
      && |data| <= 67108864 && env.sha256(data) == digest && env.decode(data).Some?
      && env.decode(data).value.comment == "qatlas-ui-v1:" + version
      && EntriesFit(env.decode(data).value.entries)
  {
    if env.decode(data).Some? {
      var entries := env.decode(data).value.entries;
      if AcceptableEntries(entries) {
        AcceptedEntriesFit(entries);
      }
      if EntriesFit(entries) {
        FittingEntriesAreAccepted(entries);
      }
    }
  }

  // ---------------------------------------------------------------- the whole tree

  predicate NonemptyFile(tree: Forest, parts: seq<string>) {
    match Lookup(tree, parts)
    case Some(File(size, _)) => size > 0
    case _ => false
  }

  predicate NoSlashes(parts: seq<string>) {
    parts != [] && forall i :: 0 <= i < |parts| ==> '/' !in parts[i]
  }

  /** The tree has a nonempty file under these elements, which make this page. */
  predicate PageAt(tree: Forest, page: string, parts: seq<string>) {
    NoSlashes(parts) && Join(parts, '/') == page && NonemptyFile(tree, parts)
  }

  ghost predicate HasPage(tree: Forest, page: string) {
    exists parts :: PageAt(tree, page, parts)
  }

  /** The same pages and script, looked up in the tree element by element. */
  ghost predicate TreeHasPages(tree: Forest, script: string) {
    && HasPage(tree, "index.html") && HasPage(tree, "doc/index.html") && HasPage(tree, "devdoc/dev/index.html")
    && TrimSuffix(script, ".js") + ".js" == script && NonemptyFile(tree, ["assets", script])
  }

  lemma PageIsThereExactly(tree: Forest, page: string)
    ensures HasNonempty(tree, page) <==> HasPage(tree, page)
  {
    JoinOfSplit(page, '/');
    if HasNonempty(tree, page) {
      assert PageAt(tree, page, Split(page, '/'));
    }
    if parts :| PageAt(tree, page, parts) {
      SplitOfJoin(parts, '/');
    }
  }

  lemma ScriptIsVisited(tree: Forest, script: string)
    requires IsFileSystem(tree) && NonemptyFile(tree, ["assets", script]) && TrimSuffix(script, ".js") + ".js" == script
    ensures exists i :: 0 <= i < |Walk([], tree)| && IsScript(Walk([], tree)[i])
  {
    var parts, visits := ["assets", script], Walk([], tree);
    WalkVisitsAll([], tree, parts);
    assert [] + parts == parts;
    var i :| 0 <= i < |visits| && visits[i] == Visit(parts, Lookup(tree, parts).value);
    assert IsScript(visits[i]);
  }

  lemma VisitedScriptIsThere(tree: Forest, i: nat) returns (script: string)
    requires IsFileSystem(tree) && i < |Walk([], tree)| && IsScript(Walk([], tree)[i])
    ensures NonemptyFile(tree, ["assets", script]) && TrimSuffix(script, ".js") + ".js" == script
  {
    var v := Walk([], tree)[i];
    script := v.parts[1];
    WalkFinds([], tree, i);
    assert v.parts[0..] == v.parts == ["assets", script];
  }

  lemma CompleteTreeExactly(tree: Forest)
    requires IsFileSystem(tree)
    ensures CompleteTree(tree) <==> exists script :: TreeHasPages(tree, script)
  {
    PageIsThereExactly(tree, "index.html");
    PageIsThereExactly(tree, "doc/index.html");
    PageIsThereExactly(tree, "devdoc/dev/index.html");
    if CompleteTree(tree) {
      var i :| 0 <= i < |Walk([], tree)| && IsScript(Walk([], tree)[i]);
      var script := VisitedScriptIsThere(tree, i);
      assert TreeHasPages(tree, script);
    }
    if script :| TreeHasPages(tree, script) {
      ScriptIsVisited(tree, script);
    }
  }

  /** The files of a tree in walk order, as entries of its archive. */
  function EntriesOf(tree: Forest): seq<Entry> {
    FileEntries(Walk([], tree))
  }

  lemma {:induction false} FileBytesAddUp(visits: seq<Visit>)
    requires Placed(visits) && forall i :: 0 <= i < |visits| ==> VisitOk(visits[i])
    ensures Total(FileEntries(visits)) == |AllBytes(FileEntries(visits))|
  {
    if visits != [] {
      var last := |visits| - 1;
      FileBytesAddUp(visits[..last]);
      var before := FileEntries(visits[..last]);
      if visits[last].node.File? {
        SafeFileIsRegular(visits[last]);
        assert (before + [EntryOf(visits[last])])[..|before|] == before;
      } else {
        assert FileEntries(visits) == before;
      }
    }
  }

  /** What a tree must hold, path by path and together. */
  ghost predicate TreeFits(tree: Forest) {
    && (exists script :: TreeHasPages(tree, script)) && EverythingFits(tree)
    && |EntriesOf(tree)| <= 20000 && |AllBytes(EntriesOf(tree))| <= 268435456
  }

  lemma AcceptedTreeFits(tree: Forest)
    requires IsFileSystem(tree) && CompleteTree(tree) && VisitsOk(Walk([], tree))
    ensures TreeFits(tree)
  {
    CompleteTreeExactly(tree);
    TreeFitsExactly(tree);
    FileBytesAddUp(Walk([], tree));
  }

  lemma FittingTreeIsAccepted(tree: Forest)
    requires IsFileSystem(tree) && TreeFits(tree)
    ensures CompleteTree(tree) && VisitsOk(Walk([], tree))
  {
    CompleteTreeExactly(tree);
    TreeFitsExactly(tree);
    FileBytesAddUp(Walk([], tree));
  }

  /** Pack accepts exactly these trees and versions. */
  lemma TreePackedExactly(env: Env, tree: Forest, version: string)
    requires IsFileSystem(tree)
    ensures Packable(env, tree, version) <==>
      && TreeFits(tree) && ReleaseVersion.Canonical(version).Some?
      && env.encode(Archive("qatlas-ui-v1:" + ReleaseVersion.Canonical(version).value, EntriesOf(tree))).Some?
  {
    if Packable(env, tree, version) {
      AcceptedTreeFits(tree);
    } else if TreeFits(tree) {
      FittingTreeIsAccepted(tree);
    }
  }
}
