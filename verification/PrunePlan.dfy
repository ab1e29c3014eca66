/** planPruneCandidates: which noncurrent object versions `storage prune` deletes. */
module PrunePlan {
  import opened Sorting
  import Order

  /** Times are integers; a positive ageCap keeps what was modified after now - ageCap. */
  datatype Version = Version(key: string, versionID: string, lastModified: int, isLatest: bool, isDeleteMarker: bool)

  datatype Policy = Policy(ageCap: int, keepLast: int, now: int)

  predicate Eligible(pol: Policy, v: Version) {
    !v.isLatest && !(pol.ageCap > 0 && v.lastModified > pol.now - pol.ageCap)
  }

  function Keep(pol: Policy): nat {
    if pol.keepLast > 0 then pol.keepLast else 0
  }

  function EligibleOf(pol: Policy, versions: seq<Version>, key: string): seq<Version> {
    if versions == [] then []
    else
      var v := versions[|versions| - 1];
      EligibleOf(pol, versions[..|versions| - 1], key) + if Eligible(pol, v) && v.key == key then [v] else []
  }

  function OfKey(versions: seq<Version>, key: string): seq<Version> {
    if versions == [] then []
    else
      var v := versions[|versions| - 1];
      OfKey(versions[..|versions| - 1], key) + if v.key == key then [v] else []
  }

  function Newer(): (Version, Version) -> bool {
    (a: Version, b: Version) => a.lastModified > b.lastModified
  }

  function PlanOrder(): (Version, Version) -> bool {
    (a: Version, b: Version) => if a.key != b.key then Order.Less(a.key, b.key) else a.lastModified > b.lastModified
  }

  function Excess(eligible: nat, keep: nat): nat {
    if eligible > keep then eligible - keep else 0
  }

  /** `taken` is the excess over `keep`, and nothing left is older than anything taken. */
  ghost predicate TakesOldest(eligible: multiset<Version>, taken: multiset<Version>, keep: nat) {
    && taken <= eligible
    && |taken| == Excess(|eligible|, keep)
    && forall p, q :: p in taken && q in eligible - taken ==> q.lastModified >= p.lastModified
  }

  ghost predicate KeyPlanned(pol: Policy, versions: seq<Version>, out: seq<Version>, key: string) {
    TakesOldest(multiset(EligibleOf(pol, versions, key)), multiset(OfKey(out, key)), Keep(pol))
  }

  /** What the planner promises, key by key, and the order of its list. */
  ghost predicate IsPlan(pol: Policy, versions: seq<Version>, plan: seq<Version>) {
    (forall key: string :: KeyPlanned(pol, versions, plan, key)) && SortedBy(plan, PlanOrder())
  }

  // ---------------------------------------------------------------- orders and multisets

  lemma NewerIsWeakOrder()
    ensures StrictWeakOrder(Newer())
  {
  }

  lemma PlanOrderIsWeakOrder()
    ensures StrictWeakOrder(PlanOrder())
  {
    var less := PlanOrder();
    forall x, y, z | less(x, y) && less(y, z) ensures less(x, z) {
      if x.key != y.key && y.key != z.key {
        Order.Transitive(x.key, y.key, z.key);
        Order.Irreflexive(x.key);
      }
    }
    forall x, y, z | less(x, z) ensures less(x, y) || less(y, z) {
      Order.Total(x.key, y.key);
      Order.Total(y.key, z.key);
      if Order.Less(y.key, x.key) && x.key != z.key {
        Order.Transitive(y.key, x.key, z.key);
      }
      if Order.Less(z.key, y.key) && x.key != z.key {
        Order.Transitive(x.key, z.key, y.key);
      }
    }
  }

  lemma {:induction false} OfKeyCounts(versions: seq<Version>, key: string, v: Version)
    ensures multiset(OfKey(versions, key))[v] == if v.key == key then multiset(versions)[v] else 0
  {
    if versions != [] {
      OfKeyCounts(versions[..|versions| - 1], key, v);
      assert versions == versions[..|versions| - 1] + [versions[|versions| - 1]];
    }
  }

  lemma {:induction false} EligibleCounts(pol: Policy, versions: seq<Version>, key: string, v: Version)
    ensures multiset(EligibleOf(pol, versions, key))[v]
            == if v.key == key && Eligible(pol, v) then multiset(versions)[v] else 0
  {
    if versions != [] {
      EligibleCounts(pol, versions[..|versions| - 1], key, v);
      assert versions == versions[..|versions| - 1] + [versions[|versions| - 1]];
    }
  }

  lemma PermutationKeepsKeys(a: seq<Version>, b: seq<Version>, key: string)
    requires multiset(a) == multiset(b)
    ensures multiset(OfKey(a, key)) == multiset(OfKey(b, key))
  {
    forall v ensures multiset(OfKey(a, key))[v] == multiset(OfKey(b, key))[v] {
      OfKeyCounts(a, key, v);
      OfKeyCounts(b, key, v);
    }
  }

  lemma {:induction false} OfKeyOfAppend(a: seq<Version>, b: seq<Version>, key: string)
    ensures OfKey(a + b, key) == OfKey(a, key) + OfKey(b, key)
  {
    if b == [] {
      assert a + b == a;
    } else {
      assert (a + b)[..|a + b| - 1] == a + b[..|b| - 1];
      OfKeyOfAppend(a, b[..|b| - 1], key);
    }
  }

  lemma {:induction false} OfOwnKey(s: seq<Version>, key: string, other: string)
    requires forall i :: 0 <= i < |s| ==> s[i].key == key
    ensures OfKey(s, other) == if other == key then s else []
  {
    if s != [] {
      OfOwnKey(s[..|s| - 1], key, other);
      assert s == s[..|s| - 1] + [s[|s| - 1]];
    }
  }

  lemma {:induction false} EligibleHaveKey(pol: Policy, versions: seq<Version>, key: string)
    ensures forall v :: v in EligibleOf(pol, versions, key) ==> v.key == key && Eligible(pol, v) && v in versions
  {
    if versions != [] {
      EligibleHaveKey(pol, versions[..|versions| - 1], key);
    }
  }

  /** Dropping the first `keep` of a newest-first permutation takes the oldest. */
  lemma DropTakesOldest(eligible: seq<Version>, sorted: seq<Version>, keep: nat)
    requires multiset(sorted) == multiset(eligible) && SortedBy(sorted, Newer())
    ensures |sorted| >= keep ==> TakesOldest(multiset(eligible), multiset(sorted[keep..]), keep)
    ensures |sorted| <= keep ==> TakesOldest(multiset(eligible), multiset([]), keep)
  {
    assert |multiset(sorted)| == |sorted| && |multiset(eligible)| == |eligible|;
    if |sorted| >= keep {
      assert sorted == sorted[..keep] + sorted[keep..];
      assert multiset(eligible) - multiset(sorted[keep..]) == multiset(sorted[..keep]);
      forall p, q | p in multiset(sorted[keep..]) && q in multiset(sorted[..keep])
        ensures q.lastModified >= p.lastModified
      {
        assert p in sorted[keep..] && q in sorted[..keep];
        var i :| 0 <= i < |sorted[keep..]| && sorted[keep..][i] == p;
        var j :| 0 <= j < keep && sorted[..keep][j] == q;
        assert !Newer()(sorted[keep + i], sorted[j]);
      }
    }
  }

  // ---------------------------------------------------------------- the planner

  ghost predicate Grouped(pol: Policy, versions: seq<Version>, byKey: map<string, seq<Version>>) {
    && (forall key :: key in byKey <==> EligibleOf(pol, versions, key) != [])
    && forall key :: key in byKey ==> byKey[key] == EligibleOf(pol, versions, key)
  }

  lemma EligibleOneMore(pol: Policy, versions: seq<Version>, n: nat, key: string)
    requires n < |versions|
    ensures EligibleOf(pol, versions[..n + 1], key)
            == EligibleOf(pol, versions[..n], key)
               + if Eligible(pol, versions[n]) && versions[n].key == key then [versions[n]] else []
  {
    assert versions[..n + 1][..n] == versions[..n];
  }

  lemma GroupedOneMore(pol: Policy, versions: seq<Version>, n: nat, byKey: map<string, seq<Version>>)
    requires n < |versions| && Grouped(pol, versions[..n], byKey)
    ensures var v := versions[n];
      Grouped(pol, versions[..n + 1],
              if Eligible(pol, v) then byKey[v.key := (if v.key in byKey then byKey[v.key] else []) + [v]] else byKey)
  {
    forall key ensures EligibleOf(pol, versions[..n + 1], key)
            == EligibleOf(pol, versions[..n], key)
               + if Eligible(pol, versions[n]) && versions[n].key == key then [versions[n]] else []
    {
      EligibleOneMore(pol, versions, n, key);
    }
  }

  /** The first pass: the eligible versions, grouped by key. */
  method GroupByKey(pol: Policy, versions: seq<Version>) returns (byKey: map<string, seq<Version>>)
    ensures Grouped(pol, versions, byKey)
  {
    byKey := map[];
    for n := 0 to |versions|
      invariant Grouped(pol, versions[..n], byKey)
    {
      var v := versions[n];
      GroupedOneMore(pol, versions, n, byKey);
      if v.isLatest {
        continue;
      }
      if pol.ageCap > 0 && v.lastModified > pol.now - pol.ageCap {
        continue;
      }
      byKey := byKey[v.key := (if v.key in byKey then byKey[v.key] else []) + [v]];
    }
    assert versions[..|versions|] == versions;
  }

  /** The versions of one key that go: all but the newest keepLast. */
  method TakeFromKey(pol: Policy, group: seq<Version>) returns (taken: seq<Version>)
    ensures TakesOldest(multiset(group), multiset(taken), Keep(pol))
    ensures forall v :: v in taken ==> v in group
  {
    NewerIsWeakOrder();
    var vs := SortSlice(group, Newer());
    DropTakesOldest(group, vs, Keep(pol));
    SameElements(vs, group);
    if pol.keepLast > 0 && |vs| > pol.keepLast {
      taken := vs[pol.keepLast..];
    } else if pol.keepLast > 0 {
      taken := [];
    } else {
      taken := vs;
      assert vs[0..] == vs;
    }
  }

  lemma SamePartSamePlan(pol: Policy, versions: seq<Version>, a: seq<Version>, b: seq<Version>, key: string)
    requires KeyPlanned(pol, versions, a, key) && multiset(OfKey(a, key)) == multiset(OfKey(b, key))
    ensures KeyPlanned(pol, versions, b, key)
  {
  }

  lemma NothingEligibleIsPlanned(pol: Policy, versions: seq<Version>, out: seq<Version>, key: string)
    requires EligibleOf(pol, versions, key) == [] && OfKey(out, key) == []
    ensures KeyPlanned(pol, versions, out, key)
  {
  }

  /** The keys walked so far are planned, the others untouched. */
  ghost predicate Planning(pol: Policy, versions: seq<Version>, all: set<string>, left: set<string>,
                           out: seq<Version>) {
    && left <= all
    && (forall key :: key in all && key !in left ==> KeyPlanned(pol, versions, out, key))
    && forall key :: key !in all || key in left ==> OfKey(out, key) == []
  }

  lemma PlanOneKey(pol: Policy, versions: seq<Version>, all: set<string>, left: set<string>, out: seq<Version>,
                   key: string, taken: seq<Version>)
    requires Planning(pol, versions, all, left, out) && key in left
    requires TakesOldest(multiset(EligibleOf(pol, versions, key)), multiset(taken), Keep(pol))
    requires forall v :: v in taken ==> v in EligibleOf(pol, versions, key)
    ensures Planning(pol, versions, all, left - {key}, out + taken)
  {
    EligibleHaveKey(pol, versions, key);
    assert forall i :: 0 <= i < |taken| ==> taken[i] in taken;
    forall other
      ensures OfKey(out + taken, other) == if other == key then taken else OfKey(out, other)
      ensures other in all && other !in left - {key} ==> KeyPlanned(pol, versions, out + taken, other)
    {
      OfKeyOfAppend(out, taken, other);
      OfOwnKey(taken, key, other);
      if other != key && other in all && other !in left {
        SamePartSamePlan(pol, versions, out, out + taken, other);
      }
    }
  }

  lemma PlanAllKeys(pol: Policy, versions: seq<Version>, all: set<string>, out: seq<Version>, plan: seq<Version>)
    requires Planning(pol, versions, all, {}, out) && multiset(plan) == multiset(out) && SortedBy(plan, PlanOrder())
    requires forall key :: key !in all ==> EligibleOf(pol, versions, key) == []
    ensures IsPlan(pol, versions, plan)
  {
    forall key: string ensures KeyPlanned(pol, versions, plan, key) {
      PermutationKeepsKeys(plan, out, key);
      if key in all {
        SamePartSamePlan(pol, versions, out, plan, key);
      } else {
        assert |multiset(OfKey(plan, key))| == 0;
        NothingEligibleIsPlanned(pol, versions, plan, key);
      }
    }
  }

  /** The map is walked in any order; the final sort makes the list predictable. */
  method PlanPruneCandidates(pol: Policy, versions: seq<Version>) returns (plan: seq<Version>)
    ensures IsPlan(pol, versions, plan)
  {
    var byKey := GroupByKey(pol, versions);
    var out: seq<Version> := [];
    var keys := byKey.Keys;
    while keys != {}
      invariant Planning(pol, versions, byKey.Keys, keys, out)
      decreases |keys|
    {
      var key :| key in keys;
      var taken := TakeFromKey(pol, byKey[key]);
      PlanOneKey(pol, versions, byKey.Keys, keys, out, key, taken);
      out := out + taken;
      keys := keys - {key};
    }
    PlanOrderIsWeakOrder();
    plan := SortSlice(out, PlanOrder());
    PlanAllKeys(pol, versions, byKey.Keys, out, plan);
  }

  // ---------------------------------------------------------------- what a plan guarantees

  lemma PlannedIsTaken(pol: Policy, versions: seq<Version>, plan: seq<Version>, p: Version)
    requires IsPlan(pol, versions, plan) && p in plan
    ensures p in multiset(OfKey(plan, p.key)) && p in multiset(EligibleOf(pol, versions, p.key))
  {
    assert p in multiset(plan);
    OfKeyCounts(plan, p.key, p);
    assert KeyPlanned(pol, versions, plan, p.key);
  }

  /** A plan never holds a current version, nor one modified within the age cap, nor one not listed. */
  lemma CurrentVersionsAreSafe(pol: Policy, versions: seq<Version>, plan: seq<Version>, p: Version)
    requires IsPlan(pol, versions, plan) && p in plan
    ensures p in versions && !p.isLatest && (pol.ageCap > 0 ==> p.lastModified <= pol.now - pol.ageCap)
  {
    PlannedIsTaken(pol, versions, plan, p);
    EligibleHaveKey(pol, versions, p.key);
    assert p in EligibleOf(pol, versions, p.key);
  }

  /** Exactly max(0, eligible - keepLast) versions of each key go, and each version that goes leaves exactly
      keepLast eligible versions of its key behind, all at least as new.  Versions within the age cap stay besides. */
  lemma NewerOnesStay(pol: Policy, versions: seq<Version>, plan: seq<Version>, key: string)
    requires IsPlan(pol, versions, plan)
    ensures |OfKey(plan, key)| == Excess(|EligibleOf(pol, versions, key)|, Keep(pol))
    ensures var stay := multiset(EligibleOf(pol, versions, key)) - multiset(OfKey(plan, key));
      OfKey(plan, key) != [] ==>
        && |stay| == Keep(pol)
        && forall p, q :: p in OfKey(plan, key) && q in stay ==> q.lastModified >= p.lastModified
  {
    assert KeyPlanned(pol, versions, plan, key);
    var eligible, taken := EligibleOf(pol, versions, key), OfKey(plan, key);
    assert |multiset(eligible)| == |eligible| && |multiset(taken)| == |taken|;
    assert multiset(eligible) == (multiset(eligible) - multiset(taken)) + multiset(taken);
    forall p | p in taken ensures p in multiset(taken) {}
  }

  /** The list is grouped by ascending key, newest first within a key. */
  lemma PlanReadsInOrder(pol: Policy, versions: seq<Version>, plan: seq<Version>, i: nat, j: nat)
    requires IsPlan(pol, versions, plan) && i < j < |plan|
    ensures Order.AtMost(plan[i].key, plan[j].key)
    ensures plan[i].key == plan[j].key ==> plan[i].lastModified >= plan[j].lastModified
  {
    assert !PlanOrder()(plan[j], plan[i]);
    Order.Total(plan[i].key, plan[j].key);
  }

  lemma RemainingEligible(pol: Policy, versions: seq<Version>, plan: seq<Version>, rest: seq<Version>, key: string)
    requires IsPlan(pol, versions, plan) && multiset(rest) == multiset(versions) - multiset(plan)
    ensures multiset(EligibleOf(pol, rest, key))
        == multiset(EligibleOf(pol, versions, key)) - multiset(OfKey(plan, key))
  {
    forall v
      ensures multiset(EligibleOf(pol, rest, key))[v]
              == (multiset(EligibleOf(pol, versions, key)) - multiset(OfKey(plan, key)))[v]
    {
      EligibleCounts(pol, rest, key, v);
      EligibleCounts(pol, versions, key, v);
      OfKeyCounts(plan, key, v);
      assert KeyPlanned(pol, versions, plan, key);
    }
  }

  /** Planning again after the plan was applied finds nothing. */
  lemma ReplanningIsEmpty(pol: Policy, versions: seq<Version>, plan: seq<Version>, rest: seq<Version>,
                          again: seq<Version>)
    requires IsPlan(pol, versions, plan) && multiset(rest) == multiset(versions) - multiset(plan)
    requires IsPlan(pol, rest, again)
    ensures again == []
  {
    if again != [] {
      var p := again[0];
      RemainingEligible(pol, versions, plan, rest, p.key);
      NewerOnesStay(pol, versions, plan, p.key);
      NothingLeftToTake(pol, versions, plan, rest, p.key);
      NewerOnesStay(pol, rest, again, p.key);
      PlannedIsTaken(pol, rest, again, p);
    }
  }

  lemma NothingLeftToTake(pol: Policy, versions: seq<Version>, plan: seq<Version>, rest: seq<Version>, key: string)
    requires IsPlan(pol, versions, plan) && multiset(rest) == multiset(versions) - multiset(plan)
    ensures |EligibleOf(pol, rest, key)| <= Keep(pol)
  {
    RemainingEligible(pol, versions, plan, rest, key);
    assert KeyPlanned(pol, versions, plan, key);
    var eligible, taken := multiset(EligibleOf(pol, versions, key)), multiset(OfKey(plan, key));
    assert eligible == (eligible - taken) + taken;
    assert |multiset(EligibleOf(pol, rest, key))| == |EligibleOf(pol, rest, key)|;
  }

  lemma OnlyTakenAreEquallyOld(eligible: multiset<Version>, a: multiset<Version>, b: multiset<Version>, keep: nat,
                               p: Version)
    returns (q: Version)
    requires TakesOldest(eligible, a, keep) && TakesOldest(eligible, b, keep) && p in a - b
    ensures q in b - a && q.lastModified == p.lastModified
  {
    assert a == (a - b) + (a * b) && b == (b - a) + (a * b);
    assert |b - a| == |a - b| > 0;
    q :| q in b - a;
    assert p in eligible - b && q in eligible - a;
  }

  /** Which versions go is determined when no two versions of the key are equally old. */
  lemma TieFreeChoiceIsUnique(eligible: multiset<Version>, a: multiset<Version>, b: multiset<Version>, keep: nat)
    requires TakesOldest(eligible, a, keep) && TakesOldest(eligible, b, keep)
    requires forall v :: eligible[v] <= 1
    requires forall v, w :: v in eligible && w in eligible && v.lastModified == w.lastModified ==> v == w
    ensures a == b
  {
    forall p ensures a[p] == b[p] {
      if p in a - b {
        var q := OnlyTakenAreEquallyOld(eligible, a, b, keep, p);
      }
      if p in b - a {
        var q := OnlyTakenAreEquallyOld(eligible, b, a, keep, p);
      }
    }
  }
}
