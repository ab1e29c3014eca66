/** Which versions a plan holds, version by version: judged by how many newer ones of the same key may go as well. */
module PruneExact {
  import opened PrunePlan

  /** Not the current version of its key, a delete marker or not, and outside the age cap if there is one. */
  predicate MayGo(pol: Policy, v: Version) {
    !v.isLatest && (pol.ageCap <= 0 || v.lastModified + pol.ageCap <= pol.now)
  }

  /** The versions of the key of `v` that may go and are newer than it, or, not strictly, at least as new. */
  predicate Outranks(pol: Policy, w: Version, v: Version, strictly: bool) {
    && MayGo(pol, w) && w.key == v.key
    && (w.lastModified > v.lastModified || (!strictly && w.lastModified == v.lastModified))
  }

  function Ahead(pol: Policy, versions: seq<Version>, v: Version, strictly: bool): seq<Version> {
    if versions == [] then []
    else
      var w := versions[|versions| - 1];
      Ahead(pol, versions[..|versions| - 1], v, strictly) + if Outranks(pol, w, v, strictly) then [w] else []
  }

  lemma {:induction false} AheadCounts(pol: Policy, versions: seq<Version>, v: Version, strictly: bool, w: Version)
    ensures multiset(Ahead(pol, versions, v, strictly))[w]
            == if Outranks(pol, w, v, strictly) then multiset(versions)[w] else 0
  {
    if versions != [] {
      AheadCounts(pol, versions[..|versions| - 1], v, strictly, w);
      assert versions == versions[..|versions| - 1] + [versions[|versions| - 1]];
    }
  }

  /** What is ahead of `v` is a part of what is eligible under its key. */
  lemma AheadIsEligible(pol: Policy, versions: seq<Version>, v: Version, strictly: bool)
    ensures multiset(Ahead(pol, versions, v, strictly)) <= multiset(EligibleOf(pol, versions, v.key))
    ensures forall w :: w in multiset(Ahead(pol, versions, v, strictly)) ==> Outranks(pol, w, v, strictly)
    ensures forall w :: Outranks(pol, w, v, strictly) ==>
      multiset(Ahead(pol, versions, v, strictly))[w] == multiset(EligibleOf(pol, versions, v.key))[w]
  {
    forall w
      ensures multiset(Ahead(pol, versions, v, strictly))[w] <= multiset(EligibleOf(pol, versions, v.key))[w]
      ensures multiset(Ahead(pol, versions, v, strictly))[w] > 0 ==> Outranks(pol, w, v, strictly)
      ensures Outranks(pol, w, v, strictly) ==>
        multiset(Ahead(pol, versions, v, strictly))[w] == multiset(EligibleOf(pol, versions, v.key))[w]
    {
      AheadCounts(pol, versions, v, strictly, w);
      EligibleCounts(pol, versions, v.key, w);
    }
  }

  /** How many of each key --keep-last leaves: none without it. */
  function KeptOfEachKey(pol: Policy): nat {
    if pol.keepLast <= 0 then 0 else pol.keepLast
  }

  lemma EnoughNewerMeansTaken(eligible: multiset<Version>, taken: multiset<Version>, ahead: multiset<Version>,
                              keep: nat, v: Version)
    requires TakesOldest(eligible, taken, keep) && ahead <= eligible && |ahead| >= keep
    requires forall w :: w in ahead ==> w.lastModified > v.lastModified
    ensures v !in eligible - taken
  {
    if v in eligible - taken {
      var stay := eligible - taken;
      assert eligible == stay + taken;
      forall w | w in ahead ensures w !in taken {
        assert w in taken ==> v.lastModified >= w.lastModified;
      }
      forall w ensures ahead[w] + multiset{v}[w] <= stay[w] {
        if w in ahead {
          assert taken[w] == 0;
        }
      }
      assert ahead + multiset{v} <= stay;
      SmallerOrEqual(ahead + multiset{v}, stay);
    }
  }

  lemma SmallerOrEqual(a: multiset<Version>, b: multiset<Version>)
    requires a <= b
    ensures |a| <= |b|
  {
    assert b == a + (b - a);
  }

  lemma TooFewAheadMeansKept(eligible: multiset<Version>, taken: multiset<Version>, ahead: multiset<Version>, keep: nat,
                             v: Version)
    requires TakesOldest(eligible, taken, keep) && |ahead| <= keep
    requires forall w :: w in eligible && w.lastModified >= v.lastModified ==> ahead[w] == eligible[w]
    ensures v !in taken
  {
    if v in taken {
      var stay := eligible - taken;
      assert eligible == stay + taken;
      assert |stay| == keep;
      forall w ensures stay[w] + multiset{v}[w] <= ahead[w] {
        if w in stay {
          assert w.lastModified >= v.lastModified;
        }
      }
      assert stay + multiset{v} <= ahead;
      SmallerOrEqual(stay + multiset{v}, ahead);
    }
  }

  lemma SameEligibility(pol: Policy, v: Version)
    ensures Eligible(pol, v) <==> MayGo(pol, v)
  {
  }

  /** A version goes only if it may, and then, whatever the ties: it goes for certain when keepLast or more versions of
      its key that may go are newer, and it stays for certain when no more than keepLast are at least as new. */
  lemma PlannedByRank(pol: Policy, versions: seq<Version>, plan: seq<Version>, v: Version)
    requires IsPlan(pol, versions, plan) && v in versions
    ensures v in plan ==> MayGo(pol, v)
    ensures MayGo(pol, v) && |Ahead(pol, versions, v, true)| >= KeptOfEachKey(pol) ==>
      multiset(plan)[v] == multiset(versions)[v]
    ensures |Ahead(pol, versions, v, false)| <= KeptOfEachKey(pol) ==> v !in plan
  {
    var eligible, taken := multiset(EligibleOf(pol, versions, v.key)), multiset(OfKey(plan, v.key));
    assert KeyPlanned(pol, versions, plan, v.key);
    EligibleCounts(pol, versions, v.key, v);
    OfKeyCounts(plan, v.key, v);
    SameEligibility(pol, v);
    AheadIsEligible(pol, versions, v, true);
    AheadIsEligible(pol, versions, v, false);
    var newer, asNew := multiset(Ahead(pol, versions, v, true)), multiset(Ahead(pol, versions, v, false));
    assert |newer| == |Ahead(pol, versions, v, true)| && |asNew| == |Ahead(pol, versions, v, false)|;
    if |newer| >= KeptOfEachKey(pol) {
      EnoughNewerMeansTaken(eligible, taken, newer, KeptOfEachKey(pol), v);
    }
    if |asNew| <= KeptOfEachKey(pol) {
      EligibleOutranks(pol, versions, v);
      TooFewAheadMeansKept(eligible, taken, asNew, KeptOfEachKey(pol), v);
    }
  }

  lemma EligibleOutranks(pol: Policy, versions: seq<Version>, v: Version)
    ensures forall w :: w in multiset(EligibleOf(pol, versions, v.key)) && w.lastModified >= v.lastModified ==>
      Outranks(pol, w, v, false)
  {
    EligibleHaveKey(pol, versions, v.key);
    forall w | w in multiset(EligibleOf(pol, versions, v.key)) && w.lastModified >= v.lastModified
      ensures Outranks(pol, w, v, false)
    {
      assert w in EligibleOf(pol, versions, v.key);
      SameEligibility(pol, w);
    }
  }

  lemma {:induction false} AloneAtItsTime(pol: Policy, versions: seq<Version>, v: Version)
    requires MayGo(pol, v)
    requires forall i, j :: 0 <= i < j < |versions| ==> versions[i] != versions[j]
    requires forall w :: w in versions && w.key == v.key && w.lastModified == v.lastModified ==> w == v
    ensures |Ahead(pol, versions, v, false)| == |Ahead(pol, versions, v, true)| + if v in versions then 1 else 0
  {
    if versions != [] {
      var before, w := versions[..|versions| - 1], versions[|versions| - 1];
      AloneAtItsTime(pol, before, v);
      assert v in versions <==> v in before || v == w;
    }
  }

  /** In a listing without repetitions, a version alone of its key at its time goes exactly when it is not the current
      one, is outside the age cap, and at least keepLast newer ones of its key may go too. */
  lemma PlannedExactly(pol: Policy, versions: seq<Version>, plan: seq<Version>, v: Version)
    requires IsPlan(pol, versions, plan) && v in versions
    requires forall i, j :: 0 <= i < j < |versions| ==> versions[i] != versions[j]
    requires forall w :: w in versions && w.key == v.key && w.lastModified == v.lastModified ==> w == v
    ensures v in plan <==> MayGo(pol, v) && |Ahead(pol, versions, v, true)| >= KeptOfEachKey(pol)
  {
    PlannedByRank(pol, versions, plan, v);
    if MayGo(pol, v) {
      AloneAtItsTime(pol, versions, v);
      assert multiset(versions)[v] > 0;
    }
  }
}
