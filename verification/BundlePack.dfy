/** Pack over any file tree, and the round trip through openBundle. */
module BundlePack {
  import opened Bundle
  import opened Hex
  import opened Text
  import opened Options
  import ReleaseVersion

  /** `size` is what Stat says, `content` what reading gives; Special is a link, device or unreadable entry. */
  datatype Node = File(size: nat, content: Option<Bytes>) | Dir(children: Forest) | Special

  /** The entries of a directory in name order, as ReadDir lists them. */
  datatype Forest = Nil | Cons(name: string, node: Node, rest: Forest)

  /** One call of the WalkDir callback: the path's elements and what is there. */
  datatype Visit = Visit(parts: seq<string>, node: Node)

  /** WalkDir: each entry before what it holds. */
  function Walk(above: seq<string>, f: Forest): (visits: seq<Visit>)
    ensures forall i :: 0 <= i < |visits| ==> visits[i].parts != []
    decreases f, 1
  {
    match f
    case Nil => []
    case Cons(name, node, rest) => [Visit(above + [name], node)] + Inside(above + [name], node) + Walk(above, rest)
  }

  function Inside(path: seq<string>, node: Node): (visits: seq<Visit>)
    ensures forall i :: 0 <= i < |visits| ==> visits[i].parts != []
    decreases node, 0
  {
    match node case Dir(children) => Walk(path, children) case _ => []
  }

  function Lookup(f: Forest, parts: seq<string>): Option<Node>
    decreases f
  {
    match f
    case Nil => None
    case Cons(name, node, rest) =>
      if parts == [] then None
      else if parts[0] != name then Lookup(rest, parts)
      else if |parts| == 1 then Some(node)
      else match node case Dir(children) => Lookup(children, parts[1..]) case _ => None
  }

  predicate NamedIn(f: Forest, name: string) {
    match f
    case Nil => false
    case Cons(n, _, rest) => n == name || NamedIn(rest, name)
  }

  /** What fs.FS promises of directory listings: plain element names, each once. */
  predicate IsFileSystem(f: Forest) {
    match f
    case Nil => true
    case Cons(name, node, rest) =>
      && '/' !in name && !NamedIn(rest, name) && IsFileSystem(rest)
      && (match node case Dir(children) => IsFileSystem(children) case _ => true)
  }

  function PathOf(v: Visit): string
    requires v.parts != []
  {
    Join(v.parts, '/')
  }

  /** The bytes of the regular file at a path. */
  function FileAt(f: Forest, path: string): Option<Bytes> {
    match Lookup(f, Split(path, '/'))
    case Some(File(_, content)) => content
    case _ => None
  }

  /** Validate on a tree, by the sizes Stat gives. */
  predicate HasNonempty(f: Forest, path: string) {
    match Lookup(f, Split(path, '/'))
    case Some(File(size, _)) => size > 0
    case _ => false
  }

  predicate IsScript(v: Visit) {
    |v.parts| == 2 && v.parts[0] == "assets" && v.node.File? && v.node.size > 0
    && |v.parts[1]| >= 3 && v.parts[1][|v.parts[1]| - 3..] == ".js"
  }

  predicate CompleteTree(f: Forest) {
    && HasNonempty(f, "index.html") && HasNonempty(f, "doc/index.html") && HasNonempty(f, "devdoc/dev/index.html")
    && exists i :: 0 <= i < |Walk([], f)| && IsScript(Walk([], f)[i])
  }

  // ---------------------------------------------------------------- Pack

  predicate VisitOk(v: Visit)
    requires v.parts != []
  {
    && Safe(PathOf(v))
    && match v.node
       case Dir(_) => true
       case File(size, content) => size <= MAX_FILE_SIZE && content.Some? && |content.value| == size
       case Special => false
  }

  function EntryOf(v: Visit): Entry
    requires v.parts != [] && v.node.File?
  {
    Entry(PathOf(v), Regular, v.node.size, v.node.content)
  }

  predicate Placed(visits: seq<Visit>) {
    forall i :: 0 <= i < |visits| ==> visits[i].parts != []
  }

  /** The archive entries for the files among the visits, in walk order. */
  function FileEntries(visits: seq<Visit>): seq<Entry>
    requires Placed(visits)
  {
    if visits == [] then []
    else
      var v := visits[|visits| - 1];
      FileEntries(visits[..|visits| - 1]) + if v.node.File? then [EntryOf(v)] else []
  }

  function ArchiveOf(tree: Forest, version: string): Archive {
    Archive(Comment(version), FileEntries(Walk([], tree)))
  }

  ghost predicate VisitsOk(visits: seq<Visit>)
    requires Placed(visits)
  {
    && (forall i :: 0 <= i < |visits| ==> VisitOk(visits[i]))
    && |FileEntries(visits)| <= MAX_BUNDLE_FILES && Total(FileEntries(visits)) <= MAX_EXPANDED_SIZE
  }

  /** What Pack asks of the tree and version. */
  ghost predicate Packable(env: Env, tree: Forest, version: string) {
    var visits := Walk([], tree);
    var canonical := ReleaseVersion.Canonical(version);
    && canonical.Some? && CompleteTree(tree)
    && VisitsOk(visits)
    && env.encode(ArchiveOf(tree, canonical.value)).Some?
  }

  lemma {:induction false} TrailingSlashLeavesAnEmptyPart(p: string)
    requires p == "" || p[|p| - 1] == '/'
    ensures "" in Split(p, '/')
    decreases |p|
  {
    CutRebuilds(p, '/');
    CutLength(p, '/');
    var (before, after) := Cut(p, '/');
    if after.Some? {
      assert after.value != "" ==> after.value[|after.value| - 1] == p[|p| - 1];
      TrailingSlashLeavesAnEmptyPart(after.value);
    }
  }

  lemma SafeFileIsRegular(v: Visit)
    requires v.parts != [] && v.node.File? && Safe(PathOf(v))
    ensures Mode(EntryOf(v)) == Regular && NameOf(EntryOf(v)) == PathOf(v)
  {
    var p := PathOf(v);
    if p == "" || p[|p| - 1] == '/' {
      TrailingSlashLeavesAnEmptyPart(p);
    }
  }

  lemma {:induction false} EntriesGrow(visits: seq<Visit>, n: nat)
    requires Placed(visits) && n <= |visits|
    ensures |FileEntries(visits[..n])| <= |FileEntries(visits)|
    ensures Total(FileEntries(visits[..n])) <= Total(FileEntries(visits))
    decreases |visits| - n
  {
    if n < |visits| {
      EntriesGrow(visits, n + 1);
      NextEntry(visits, n);
    } else {
      assert visits[..n] == visits;
    }
  }

  lemma NextEntry(visits: seq<Visit>, n: nat)
    requires Placed(visits) && n < |visits|
    ensures FileEntries(visits[..n + 1])
            == FileEntries(visits[..n]) + if visits[n].node.File? then [EntryOf(visits[n])] else []
    ensures Total(FileEntries(visits[..n + 1]))
            == Total(FileEntries(visits[..n])) + if visits[n].node.File? then ExpandedSize(EntryOf(visits[n])) else 0
  {
    assert visits[..n + 1][..n] == visits[..n];
    var before := FileEntries(visits[..n]);
    if visits[n].node.File? {
      var after := before + [EntryOf(visits[n])];
      assert after[..|after| - 1] == before && after[|after| - 1] == EntryOf(visits[n]);
    } else {
      assert before + [] == before;
    }
  }

  predicate Accepts(v: Visit, total: nat, count: nat)
    requires v.parts != []
  {
    VisitOk(v) && (v.node.File? ==>
      total + ExpandedSize(EntryOf(v)) <= MAX_EXPANDED_SIZE && count + 1 <= MAX_BUNDLE_FILES)
  }

  /** The callback on one visit: the entry to write, if any, and the new totals. */
  method PackVisit(v: Visit, total: nat, count: nat)
    returns (ok: bool, total': nat, count': nat, entries: seq<Entry>)
    requires v.parts != [] && total <= MAX_EXPANDED_SIZE && count <= MAX_BUNDLE_FILES
    ensures ok <==> Accepts(v, total, count)
    ensures ok ==> entries == if v.node.File? then [EntryOf(v)] else []
    ensures ok ==> total' == total + if v.node.File? then ExpandedSize(EntryOf(v)) else 0
    ensures ok ==> count' == count + |entries|
  {
    total', count', entries := total, count, [];
    if !Safe(PathOf(v)) {
      return false, total', count', entries;
    }
    if v.node.Dir? {
      return true, total', count', entries;
    }
    if !v.node.File? || v.node.size > MAX_FILE_SIZE {
      return false, total', count', entries;
    }
    SafeFileIsRegular(v);
    total' := total + v.node.size;
    count' := count + 1;
    if total' > MAX_EXPANDED_SIZE || count' > MAX_BUNDLE_FILES || v.node.content.None? {
      return false, total', count', entries;
    }
    var copied := |v.node.content.value|;
    if copied > MAX_FILE_SIZE + 1 {
      copied := MAX_FILE_SIZE + 1;
    }
    entries := [EntryOf(v)];
    ok := copied == v.node.size;
  }

  ghost predicate PackedSoFar(visits: seq<Visit>, n: nat, written: seq<Entry>, total: nat, count: nat)
    requires Placed(visits)
  {
    && n <= |visits|
    && (forall i :: 0 <= i < n ==> VisitOk(visits[i]))
    && written == FileEntries(visits[..n])
    && count == |written| <= MAX_BUNDLE_FILES && total == Total(written) <= MAX_EXPANDED_SIZE
  }

  lemma PackStep(visits: seq<Visit>, n: nat, written: seq<Entry>, total: nat, count: nat)
    requires Placed(visits) && PackedSoFar(visits, n, written, total, count) && n < |visits|
    ensures !Accepts(visits[n], total, count) ==> !VisitsOk(visits)
    ensures Accepts(visits[n], total, count) ==>
              if visits[n].node.File? then
                PackedSoFar(visits, n + 1, written + [EntryOf(visits[n])],
                            total + ExpandedSize(EntryOf(visits[n])), count + 1)
              else PackedSoFar(visits, n + 1, written + [], total, count)
  {
    NextEntry(visits, n);
    EntriesGrow(visits, n + 1);
  }

  /** The callbacks of one walk, in order. */
  method PackVisits(visits: seq<Visit>) returns (entries: Option<seq<Entry>>)
    requires Placed(visits)
    ensures entries.Some? <==> VisitsOk(visits)
    ensures entries.Some? ==> entries.value == FileEntries(visits)
  {
    var written: seq<Entry> := [];
    var total, count: nat := 0, 0;
    var n := 0;
    while n < |visits|
      invariant PackedSoFar(visits, n, written, total, count)
    {
      PackStep(visits, n, written, total, count);
      var ok, sum, files, more := PackVisit(visits[n], total, count);
      if !ok {
        return None;
      }
      written, total, count, n := written + more, sum, files, n + 1;
    }
    assert visits[..n] == visits;
    entries := Some(written);
  }

  method Pack(env: Env, tree: Forest, version: string) returns (out: Option<Bytes>)
    ensures out.Some? <==> Packable(env, tree, version)
    ensures out.Some? ==> out == env.encode(ArchiveOf(tree, ReleaseVersion.Canonical(version).value))
  {
    var canonical := ReleaseVersion.Canonical(version);
    if canonical.None? || !CompleteTree(tree) {
      return None;
    }
    var entries := PackVisits(Walk([], tree));
    if entries.None? {
      return None;
    }
    out := env.encode(Archive(Comment(canonical.value), entries.value));
  }

  // ---------------------------------------------------------------- what the walk visits

  /** A visit is what Lookup finds, below the starting point. */
  ghost predicate Finds(above: seq<string>, f: Forest, v: Visit) {
    && |v.parts| > |above| && v.parts[..|above|] == above
    && Lookup(f, v.parts[|above|..]) == Some(v.node)
    && forall i :: |above| <= i < |v.parts| ==> '/' !in v.parts[i]
  }

  lemma {:induction false} LookupIsNamed(f: Forest, parts: seq<string>)
    requires Lookup(f, parts).Some?
    ensures parts != [] && NamedIn(f, parts[0])
    decreases f
  {
    match f
    case Nil =>
    case Cons(name, _, rest) =>
      if parts[0] != name {
        LookupIsNamed(rest, parts);
      }
  }

  lemma {:induction false} WalkFinds(above: seq<string>, f: Forest, i: nat)
    requires IsFileSystem(f) && i < |Walk(above, f)|
    ensures Finds(above, f, Walk(above, f)[i])
    decreases f
  {
    match f
    case Nil =>
    case Cons(name, node, rest) =>
      var n := |Inside(above + [name], node)|;
      var v := Walk(above, f)[i];
      if 1 <= i < 1 + n {
        WalkFinds(above + [name], node.children, i - 1);
        assert v.parts[|above|..][1..] == v.parts[|above| + 1..];
        assert v.parts[..|above|] == v.parts[..|above| + 1][..|above|];
        assert v.parts[|above|] == v.parts[..|above| + 1][|above|];
      } else if i > n {
        WalkFinds(above, rest, i - 1 - n);
        LookupIsNamed(rest, v.parts[|above|..]);
      }
  }

  lemma {:induction false} WalkVisitsAll(above: seq<string>, f: Forest, parts: seq<string>)
    requires IsFileSystem(f) && Lookup(f, parts).Some?
    ensures Visit(above + parts, Lookup(f, parts).value) in Walk(above, f)
    decreases f
  {
    match f
    case Nil =>
    case Cons(name, node, rest) =>
      if parts[0] != name {
        WalkVisitsAll(above, rest, parts);
      } else if |parts| == 1 {
        assert parts == [name];
        assert Walk(above, f)[0] == Visit(above + parts, node);
      } else {
        WalkVisitsAll(above + [name], node.children, parts[1..]);
        assert above + [name] + parts[1..] == above + parts;
      }
  }

  /** No path is visited twice. */
  lemma {:induction false} WalkIsDistinct(above: seq<string>, f: Forest, i: nat, j: nat)
    requires IsFileSystem(f) && i < j < |Walk(above, f)|
    ensures Walk(above, f)[i].parts != Walk(above, f)[j].parts
    decreases f
  {
    match f
    case Nil =>
    case Cons(name, node, rest) =>
      var n := |Inside(above + [name], node)|;
      if 1 <= i && j < 1 + n {
        WalkIsDistinct(above + [name], node.children, i - 1, j - 1);
      } else if i > n {
        WalkIsDistinct(above, rest, i - 1 - n, j - 1 - n);
      } else {
        HeadElement(above, f, i);
        if j > n {
          var w := Walk(above, f)[j];
          assert w == Walk(above, rest)[j - 1 - n];
          WalkFinds(above, rest, j - 1 - n);
          LookupIsNamed(rest, w.parts[|above|..]);
        } else {
          WalkFinds(above + [name], node.children, j - 1);
        }
      }
  }

  /** The first entry and everything below it carry its name. */
  lemma HeadElement(above: seq<string>, f: Forest, i: nat)
    requires IsFileSystem(f) && f.Cons?
    requires i < 1 + |Inside(above + [f.name], f.node)|
    ensures i < |Walk(above, f)|
    ensures |Walk(above, f)[i].parts| > |above| && Walk(above, f)[i].parts[|above|] == f.name
  {
    if i > 0 {
      var v := Walk(above, f)[i];
      assert v == Walk(above + [f.name], f.node.children)[i - 1];
      WalkFinds(above + [f.name], f.node.children, i - 1);
      assert v.parts[|above|] == v.parts[..|above| + 1][|above|];
    }
  }

  /** Whatever is below a path makes that path a directory. */
  lemma {:induction false} BelowMeansDirectory(f: Forest, parts: seq<string>, more: seq<string>)
    requires parts != [] && more != [] && Lookup(f, parts + more).Some? && Lookup(f, parts).Some?
    ensures Lookup(f, parts).value.Dir?
    decreases f
  {
    match f
    case Nil =>
    case Cons(name, node, rest) =>
      if parts[0] != name {
        BelowMeansDirectory(rest, parts, more);
      } else if |parts| > 1 {
        assert (parts + more)[1..] == parts[1..] + more;
        BelowMeansDirectory(node.children, parts[1..], more);
      }
  }
}
