/** UI bundle archives: openBundle with its loops, against a statement of which archives it accepts
    and what they then hold.  A ZIP is a comment and a list of entries. */
module Bundle {
  import opened Hex
  import opened Text
  import opened Options

  /** File type bits of an entry's attributes. */
  datatype Kind = Regular | Directory | Other

  /** `content` is what decompression gives, or nothing when it fails or the CRC differs. */
  datatype Entry = Entry(name: string, attributes: Kind, size: nat, content: Option<Bytes>)

  datatype Archive = Archive(comment: string, entries: seq<Entry>)

  /** The digest and the ZIP codec.  `encode` gives nothing when the format cannot hold the archive. */
  datatype Env = Env(sha256: Bytes -> Bytes, encode: Archive -> Option<Bytes>, decode: Bytes -> Option<Archive>)

  const MAX_BUNDLE_SIZE := 64 * 1024 * 1024
  const MAX_EXPANDED_SIZE := 256 * 1024 * 1024
  const MAX_FILE_SIZE := 16 * 1024 * 1024
  const MAX_BUNDLE_FILES := 20000
  const UINT64 := 0x1_0000_0000_0000_0000

  function Comment(version: string): string {
    "qatlas-ui-v1:" + version
  }

  /** FileHeader.Mode: a trailing slash always makes a directory. */
  function Mode(e: Entry): Kind {
    if e.attributes == Other then Other
    else if |e.name| > 0 && e.name[|e.name| - 1] == '/' then Directory
    else e.attributes
  }

  function NameOf(e: Entry): string {
    TrimSuffix(e.name, "/")
  }

  /** fs.ValidPath; a Dafny string is valid UTF-8 text. */
  predicate ValidPath(name: string) {
    name == "." || forall part :: part in Split(name, '/') ==> part != "" && part != "." && part != ".."
  }

  predicate Safe(name: string) {
    && name != "." && ValidPath(name)
    && forall i :: 0 <= i < |name| ==> name[i] !in ['\\', ':', '\0', '\r', '\n']
  }

  /** p is a directory above n. */
  predicate Above(p: string, n: string) {
    p + "/" <= n
  }

  /** A JavaScript file directly in assets. */
  predicate AssetScript(name: string) {
    && "assets/" <= name && '/' !in name[7..]
    && |name| >= 10 && name[|name| - 3..] == ".js"
  }

  predicate Nonempty(files: map<string, Bytes>, name: string) {
    name in files && files[name] != []
  }

  /** Validate, on the regular files of a tree. */
  predicate Complete(files: map<string, Bytes>) {
    && Nonempty(files, "index.html") && Nonempty(files, "doc/index.html") && Nonempty(files, "devdoc/dev/index.html")
    && exists name :: name in files && AssetScript(name) && files[name] != []
  }

  // ---------------------------------------------------------------- what is accepted

  predicate EntryOk(e: Entry) {
    && Safe(NameOf(e)) && Mode(e) != Other
    && (Mode(e) == Directory ==> e.size == 0)
    && (Mode(e) == Regular ==> e.size <= MAX_FILE_SIZE && e.content.Some? && |e.content.value| == e.size)
  }

  function ExpandedSize(e: Entry): nat {
    if Mode(e) == Regular then e.size else 0
  }

  function Total(entries: seq<Entry>): nat {
    if entries == [] then 0
    else
      var e := entries[|entries| - 1];
      Total(entries[..|entries| - 1]) + ExpandedSize(e)
  }

  /** The bytes of the regular files by name; later entries win. */
  function FilesOf(entries: seq<Entry>): map<string, Bytes> {
    if entries == [] then map[]
    else
      var e := entries[|entries| - 1];
      var before := FilesOf(entries[..|entries| - 1]);
      if Mode(e) == Regular && e.content.Some? then before[NameOf(e) := e.content.value] else before
  }

  predicate Unique(entries: seq<Entry>) {
    forall i, j :: 0 <= i < j < |entries| ==> NameOf(entries[i]) != NameOf(entries[j])
  }

  predicate Named(entries: seq<Entry>, name: string) {
    exists i :: 0 <= i < |entries| && NameOf(entries[i]) == name
  }

  /** zip.Reader lists p as a directory: an entry says so with a trailing slash. */
  predicate ListedAsDirectory(entries: seq<Entry>, p: string) {
    exists i :: 0 <= i < |entries| && entries[i].name == p + "/"
  }

  /** No entry sits below something that is in the archive but not a directory. */
  ghost predicate NoCollision(entries: seq<Entry>) {
    forall i, p :: 0 <= i < |entries| && Above(p, NameOf(entries[i])) && Named(entries, p)
      ==> ListedAsDirectory(entries, p)
  }

  ghost predicate AcceptableEntries(entries: seq<Entry>) {
    && |entries| <= MAX_BUNDLE_FILES
    && (forall i :: 0 <= i < |entries| ==> EntryOk(entries[i]))
    && Unique(entries) && Total(entries) <= MAX_EXPANDED_SIZE
    && NoCollision(entries) && Complete(FilesOf(entries))
  }

  ghost predicate Acceptable(env: Env, data: Bytes, digest: Bytes, version: string) {
    && |data| <= MAX_BUNDLE_SIZE && env.sha256(data) == digest
    && env.decode(data).Some?
    && env.decode(data).value.comment == Comment(version)
    && AcceptableEntries(env.decode(data).value.entries)
  }

  // ---------------------------------------------------------------- path.Dir

  /** path.Dir of a safe path: what stands before the last slash, or ".". */
  function Dir(p: string): (d: string)
    ensures d == "." || (|d| < |p| && Above(d, p) && '/' !in p[|d| + 1..])
    ensures '/' in p ==> Above(d, p)
    ensures '/' !in p ==> d == "."
  {
    if p == "" then "."
    else if p[|p| - 1] == '/' then p[..|p| - 1]
    else
      var d := Dir(p[..|p| - 1]);
      assert p == p[..|p| - 1] + [p[|p| - 1]];
      d
  }

  /** The directories above p are Dir(p) and those above it. */
  lemma AboveIsDirOrHigher(p: string, d: string)
    requires Above(d, p)
    ensures d == Dir(p) || Above(d, Dir(p))
  {
    assert p[|d|] == '/';
    var q := Dir(p);
    assert Above(q, p);
    if |d| > |q| {
      assert p[|q| + 1..][|d| - |q| - 1] == '/';
    } else if |d| == |q| {
      assert d == p[..|d|] == q;
    } else {
      assert d + "/" == p[..|d| + 1] == q[..|d| + 1];
    }
  }

  lemma DotAboveIsAPart(p: string)
    requires Above(".", p)
    ensures "." in Split(p, '/')
  {
    assert p == "." + ['/'] + p[2..];
    CutAtSeparator(".", '/', p[2..]);
    assert Split(p, '/')[0] == ".";
  }

  lemma SafeHasNoDotAbove(p: string)
    requires Safe(p)
    ensures !Above(".", p)
  {
    if Above(".", p) {
      DotAboveIsAPart(p);
    }
  }

  // ---------------------------------------------------------------- openBundle

  ghost predicate ClearAbove(entries: seq<Entry>, seen: set<string>, name: string) {
    forall p :: Above(p, name) && p in seen ==> ListedAsDirectory(entries, p)
  }

  /** The collision walk of one name: every seen parent is a listed directory. */
  method CheckParents(entries: seq<Entry>, seen: set<string>, name: string) returns (ok: bool)
    requires Safe(name)
    ensures ok <==> ClearAbove(entries, seen, name)
  {
    SafeHasNoDotAbove(name);
    var parent := Dir(name);
    DirCovers(name);
    while parent != "."
      invariant parent == "." || Above(parent, name)
      invariant forall p :: Above(p, name) && p in seen && !(p == parent || Above(p, parent))
                  ==> ListedAsDirectory(entries, p)
      decreases if parent == "." then 0 else |parent| + 1
    {
      if parent in seen && !ListedAsDirectory(entries, parent) {
        return false;
      }
      forall p | Above(p, parent) ensures p == Dir(parent) || Above(p, Dir(parent)) {
        AboveIsDirOrHigher(parent, p);
      }
      AboveIsTransitive(Dir(parent), parent, name);
      parent := Dir(parent);
    }
    forall p ensures !Above(p, ".") {
      assert (p + "/")[|p|] == '/';
    }
    ok := true;
  }

  lemma DirCovers(name: string)
    ensures forall p :: Above(p, name) ==> p == Dir(name) || Above(p, Dir(name))
  {
    forall p | Above(p, name) ensures p == Dir(name) || Above(p, Dir(name)) {
      AboveIsDirOrHigher(name, p);
    }
  }

  lemma AboveIsTransitive(a: string, b: string, c: string)
    requires Above(b, c)
    ensures Above(a, b) ==> Above(a, c)
  {
    if Above(a, b) {
      assert a + "/" == b[..|a| + 1] == c[..|a| + 1];
    }
  }

  ghost predicate SeenSoFar(entries: seq<Entry>, n: nat, seen: set<string>)
    requires n <= |entries|
  {
    && (forall i :: 0 <= i < n ==> NameOf(entries[i]) in seen)
    && forall name :: name in seen ==> exists i :: 0 <= i < n && NameOf(entries[i]) == name
  }

  ghost predicate UniqueSoFar(entries: seq<Entry>, n: nat)
    requires n <= |entries|
  {
    forall i, j :: 0 <= i < j < n ==> NameOf(entries[i]) != NameOf(entries[j])
  }

  /** The entries before position n are in order; `total` has not wrapped around. */
  ghost predicate ReadSoFar(entries: seq<Entry>, n: nat, seen: set<string>, files: map<string, Bytes>, total: nat) {
    && n <= |entries|
    && (forall i :: 0 <= i < n ==> EntryOk(entries[i]))
    && UniqueSoFar(entries, n) && SeenSoFar(entries, n, seen)
    && total == Total(entries[..n]) <= MAX_EXPANDED_SIZE
    && files == FilesOf(entries[..n])
  }

  lemma SeenOneMore(entries: seq<Entry>, n: nat, seen: set<string>)
    requires n < |entries| && SeenSoFar(entries, n, seen)
    ensures SeenSoFar(entries, n + 1, seen + {NameOf(entries[n])})
  {
    forall name | name in seen + {NameOf(entries[n])} ensures exists i :: 0 <= i < n + 1 && NameOf(entries[i]) == name {
      if name in seen {
        var i :| 0 <= i < n && NameOf(entries[i]) == name;
      } else {
        assert NameOf(entries[n]) == name;
      }
    }
  }

  lemma UniqueOneMore(entries: seq<Entry>, n: nat, seen: set<string>)
    requires n < |entries| && SeenSoFar(entries, n, seen) && UniqueSoFar(entries, n)
    ensures NameOf(entries[n]) !in seen ==> UniqueSoFar(entries, n + 1)
    ensures NameOf(entries[n]) in seen ==> !Unique(entries)
  {
  }

  lemma {:induction false} TotalGrows(entries: seq<Entry>, n: nat)
    requires n <= |entries|
    ensures Total(entries[..n]) <= Total(entries)
    decreases |entries| - n
  {
    if n < |entries| {
      TotalGrows(entries, n + 1);
      assert entries[..n + 1][..n] == entries[..n];
    } else {
      assert entries[..n] == entries;
    }
  }

  /** The checks of one entry; the running total is a uint64. */
  method CheckEntry(e: Entry, seen: set<string>, total: nat)
    returns (ok: bool, total': nat, content: Option<Bytes>)
    requires total <= MAX_EXPANDED_SIZE
    ensures ok <==> NameOf(e) !in seen && EntryOk(e) && total + ExpandedSize(e) <= MAX_EXPANDED_SIZE
    ensures ok ==> total' == total + ExpandedSize(e)
    ensures ok ==> content == if Mode(e) == Regular then e.content else None
  {
    total', content := total, None;
    if !Safe(NameOf(e)) || NameOf(e) in seen || Mode(e) == Other {
      return false, total', content;
    }
    if Mode(e) == Directory {
      return e.size == 0, total', content;
    }
    if e.size > MAX_FILE_SIZE {
      return false, total', content;
    }
    total' := (total + e.size) % UINT64;
    if total' > MAX_EXPANDED_SIZE || e.content.None? {
      return false, total', content;
    }
    var read := e.content.value;
    if |read| > MAX_FILE_SIZE + 1 {
      read := read[..MAX_FILE_SIZE + 1];
    }
    return |read| == e.size, total', Some(read);
  }

  ghost predicate Readable(entries: seq<Entry>) {
    && (forall i :: 0 <= i < |entries| ==> EntryOk(entries[i]))
    && Unique(entries) && Total(entries) <= MAX_EXPANDED_SIZE
  }

  lemma RefusedEntryRefusesAll(entries: seq<Entry>, n: nat, seen: set<string>, files: map<string, Bytes>, total: nat)
    requires ReadSoFar(entries, n, seen, files, total) && n < |entries|
    requires NameOf(entries[n]) in seen || !EntryOk(entries[n]) || total + ExpandedSize(entries[n]) > MAX_EXPANDED_SIZE
    ensures !Readable(entries)
  {
    UniqueOneMore(entries, n, seen);
    TotalOneMore(entries, n);
  }

  lemma TotalOneMore(entries: seq<Entry>, n: nat)
    requires n < |entries|
    ensures Total(entries[..n]) + ExpandedSize(entries[n]) <= Total(entries)
  {
    TotalGrows(entries, n + 1);
    assert entries[..n + 1][..n] == entries[..n];
  }

  /** The first loop: names, kinds, sizes, contents. */
  method ReadEntries(entries: seq<Entry>) returns (ok: bool, seen: set<string>, files: map<string, Bytes>)
    ensures ok <==> Readable(entries)
    ensures ok ==> files == FilesOf(entries) && SeenSoFar(entries, |entries|, seen)
  {
    seen, files := {}, map[];
    var total: nat := 0;
    var n := 0;
    while n < |entries|
      invariant ReadSoFar(entries, n, seen, files, total)
    {
      var e := entries[n];
      var good, sum, content := CheckEntry(e, seen, total);
      if !good {
        RefusedEntryRefusesAll(entries, n, seen, files, total);
        return false, seen, files;
      }
      assert entries[..n + 1][..n] == entries[..n];
      SeenOneMore(entries, n, seen);
      UniqueOneMore(entries, n, seen);
      seen, total := seen + {NameOf(e)}, sum;
      if content.Some? {
        files := files[NameOf(e) := content.value];
      }
      n := n + 1;
    }
    assert entries[..n] == entries;
    ok := true;
  }

  lemma ClearEverywhere(entries: seq<Entry>, seen: set<string>)
    requires SeenSoFar(entries, |entries|, seen)
    ensures NoCollision(entries)
      <==> forall i :: 0 <= i < |entries| ==> ClearAbove(entries, seen, NameOf(entries[i]))
  {
    forall p ensures p in seen <==> Named(entries, p) {
      if Named(entries, p) {
        var i :| 0 <= i < |entries| && NameOf(entries[i]) == p;
      }
    }
  }

  /** The second loop. */
  method CheckCollisions(entries: seq<Entry>, seen: set<string>) returns (ok: bool)
    requires forall i :: 0 <= i < |entries| ==> Safe(NameOf(entries[i]))
    ensures ok <==> forall i :: 0 <= i < |entries| ==> ClearAbove(entries, seen, NameOf(entries[i]))
  {
    for n := 0 to |entries|
      invariant forall i :: 0 <= i < n ==> ClearAbove(entries, seen, NameOf(entries[i]))
    {
      var clear := CheckParents(entries, seen, NameOf(entries[n]));
      if !clear {
        return false;
      }
    }
    ok := true;
  }

  method OpenBundle(env: Env, data: Bytes, digest: Bytes, version: string) returns (files: Option<map<string, Bytes>>)
    ensures files.Some? <==> Acceptable(env, data, digest, version)
    ensures files.Some? ==> files.value == FilesOf(env.decode(data).value.entries)
  {
    if |data| > MAX_BUNDLE_SIZE || env.sha256(data) != digest || env.decode(data).None? {
      return None;
    }
    var archive := env.decode(data).value;
    if archive.comment != Comment(version) || |archive.entries| > MAX_BUNDLE_FILES {
      return None;
    }
    var read, seen, contents := ReadEntries(archive.entries);
    if !read {
      return None;
    }
    var clear := CheckCollisions(archive.entries, seen);
    ClearEverywhere(archive.entries, seen);
    if !clear || !Complete(contents) {
      return None;
    }
    files := Some(contents);
  }

  // ---------------------------------------------------------------- what an accepted archive is

  lemma ListedIsNotRegular(entries: seq<Entry>, i: nat)
    requires Unique(entries) && i < |entries| && ListedAsDirectory(entries, NameOf(entries[i]))
    ensures Mode(entries[i]) != Regular
  {
    var p := NameOf(entries[i]);
    var k :| 0 <= k < |entries| && entries[k].name == p + "/";
    assert NameOf(entries[k]) == p;
  }

  /** No regular file is above another entry, at any depth. */
  lemma NoFileIsAParent(entries: seq<Entry>, i: nat, j: nat)
    requires AcceptableEntries(entries) && i < |entries| && j < |entries| && Mode(entries[i]) == Regular
    ensures !Above(NameOf(entries[i]), NameOf(entries[j]))
  {
    if Above(NameOf(entries[i]), NameOf(entries[j])) {
      assert Named(entries, NameOf(entries[i]));
      ListedIsNotRegular(entries, i);
    }
  }

  /** The opened files are exactly the regular entries, each with its own bytes. */
  lemma {:induction false} FilesAreTheRegularEntries(entries: seq<Entry>)
    requires Unique(entries)
    requires forall i :: 0 <= i < |entries| && Mode(entries[i]) == Regular ==> entries[i].content.Some?
    ensures forall i :: 0 <= i < |entries| && Mode(entries[i]) == Regular ==>
              NameOf(entries[i]) in FilesOf(entries) && FilesOf(entries)[NameOf(entries[i])] == entries[i].content.value
    ensures forall name :: name in FilesOf(entries) ==>
              exists i :: 0 <= i < |entries| && Mode(entries[i]) == Regular && NameOf(entries[i]) == name
  {
    if entries != [] {
      var last := |entries| - 1;
      var before := entries[..last];
      FilesAreTheRegularEntries(before);
      forall i | 0 <= i < last && Mode(entries[i]) == Regular
        ensures NameOf(entries[i]) in FilesOf(entries)
            && FilesOf(entries)[NameOf(entries[i])] == entries[i].content.value
      {
        assert entries[i] == before[i];
        LaterEntryKeepsFile(entries, i);
      }
      forall name | name in FilesOf(entries)
        ensures exists i :: 0 <= i < |entries| && Mode(entries[i]) == Regular && NameOf(entries[i]) == name
      {
        EveryFileHasAnEntry(entries, before, name);
      }
    }
  }

  lemma LaterEntryKeepsFile(entries: seq<Entry>, i: nat)
    requires Unique(entries) && i < |entries| - 1 && Mode(entries[i]) == Regular
    requires NameOf(entries[i]) in FilesOf(entries[..|entries| - 1])
    ensures NameOf(entries[i]) in FilesOf(entries)
    ensures FilesOf(entries)[NameOf(entries[i])] == FilesOf(entries[..|entries| - 1])[NameOf(entries[i])]
  {
  }

  lemma EveryFileHasAnEntry(entries: seq<Entry>, before: seq<Entry>, name: string)
    requires entries != [] && before == entries[..|entries| - 1] && name in FilesOf(entries)
    requires name in FilesOf(before) ==>
               exists i :: 0 <= i < |before| && Mode(before[i]) == Regular && NameOf(before[i]) == name
    ensures exists i :: 0 <= i < |entries| && Mode(entries[i]) == Regular && NameOf(entries[i]) == name
  {
    if name in FilesOf(before) {
      var i :| 0 <= i < |before| && Mode(before[i]) == Regular && NameOf(before[i]) == name;
      assert entries[i] == before[i];
    } else {
      assert NameOf(entries[|entries| - 1]) == name;
    }
  }

  /** The resident bytes of an accepted archive are bounded, file by file and together. */
  lemma {:induction false} ResidentBytesAreBounded(entries: seq<Entry>, n: nat)
    requires AcceptableEntries(entries) && n <= |entries|
    ensures Total(entries[..n]) <= MAX_EXPANDED_SIZE < UINT64
    ensures forall i :: 0 <= i < n && Mode(entries[i]) == Regular ==> |entries[i].content.value| <= MAX_FILE_SIZE
  {
    TotalGrows(entries, n);
  }
}
