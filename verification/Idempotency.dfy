/** The bounded replay cache for Idempotency-Key headers. */
module Idempotency {
  import Hex

  type Bytes = Hex.Bytes

  datatype Entry = Entry(requestHash: string, status: int, body: Bytes)

  /** One Remember call with a non-empty key. */
  datatype Outcome = Outcome(key: string, entry: Entry)

  datatype Lookup = Miss | Replay(status: int, body: Bytes) | Mismatch

  // ---------------------------------------------------------------- specification

  function Suffix<T>(s: seq<T>, n: nat): seq<T> {
    if |s| <= n then s else s[|s| - n..]
  }

  /** The keys in the order they entered the cache; a key re-enters once it has been evicted. */
  function Inserts(log: seq<Outcome>, cap: nat): seq<string> {
    if log == [] then []
    else
      var before := Inserts(log[..|log| - 1], cap);
      var key := log[|log| - 1].key;
      if key in Suffix(before, cap) then before else before + [key]
  }

  /** The keys the cache holds: the last `cap` that entered. */
  function Window(log: seq<Outcome>, cap: nat): seq<string> {
    Suffix(Inserts(log, cap), cap)
  }

  predicate Remembered(log: seq<Outcome>, key: string) {
    exists i :: 0 <= i < |log| && log[i].key == key
  }

  /** The latest outcome remembered for a key. */
  function Latest(log: seq<Outcome>, key: string): Entry
    requires Remembered(log, key)
  {
    var last := log[|log| - 1];
    if last.key == key then last.entry
    else
      assert Remembered(log[..|log| - 1], key) by {
        var i :| 0 <= i < |log| && log[i].key == key;
        assert log[..|log| - 1][i].key == key;
      }
      Latest(log[..|log| - 1], key)
  }

  ghost predicate Distinct<T>(s: seq<T>) {
    forall i, j :: 0 <= i < j < |s| ==> s[i] != s[j]
  }

  lemma {:induction false} InsertsAreRemembered(log: seq<Outcome>, cap: nat)
    ensures forall k :: k in Inserts(log, cap) ==> Remembered(log, k)
  {
    if log != [] {
      var init := log[..|log| - 1];
      InsertsAreRemembered(init, cap);
      forall k | k in Inserts(log, cap) ensures Remembered(log, k) {
        if k in Inserts(init, cap) {
          var i :| 0 <= i < |init| && init[i].key == k;
          assert log[i].key == k;
        } else {
          assert log[|log| - 1].key == k;
        }
      }
    }
  }

  lemma WindowAfter(log: seq<Outcome>, o: Outcome, cap: nat)
    requires cap > 0
    ensures var w := Window(log, cap);
            Window(log + [o], cap) ==
            if o.key in w then w else if |w| < cap then w + [o.key] else w[1..] + [o.key]
  {
    assert (log + [o])[..|log|] == log;
  }

  lemma {:induction false} WindowIsDistinct(log: seq<Outcome>, cap: nat)
    requires cap > 0
    ensures Distinct(Window(log, cap)) && |Window(log, cap)| <= cap
  {
    if log != [] {
      var init, o := log[..|log| - 1], log[|log| - 1];
      WindowIsDistinct(init, cap);
      assert init + [o] == log;
      WindowAfter(init, o, cap);
    }
  }

  lemma {:induction false} InsertsExtend(log: seq<Outcome>, more: seq<Outcome>, cap: nat)
    ensures Inserts(log, cap) <= Inserts(log + more, cap)
  {
    if more == [] {
      assert log + more == log;
    } else {
      InsertsExtend(log, more[..|more| - 1], cap);
      assert (log + more)[..|log + more| - 1] == log + more[..|more| - 1];
    }
  }

  /** How many keys entered the cache during `more`. */
  function Newer(log: seq<Outcome>, more: seq<Outcome>, cap: nat): nat {
    InsertsExtend(log, more, cap);
    |Inserts(log + more, cap)| - |Inserts(log, cap)|
  }

  lemma {:induction false} NoNewInsertOf(log: seq<Outcome>, more: seq<Outcome>, cap: nat, key: string)
    requires forall i :: 0 <= i < |more| ==> more[i].key != key
    ensures Inserts(log, cap) <= Inserts(log + more, cap)
    ensures forall i :: |Inserts(log, cap)| <= i < |Inserts(log + more, cap)| ==> Inserts(log + more, cap)[i] != key
  {
    if more == [] {
      assert log + more == log;
    } else {
      NoNewInsertOf(log, more[..|more| - 1], cap, key);
      assert (log + more)[..|log + more| - 1] == log + more[..|more| - 1];
    }
  }

  /** A newly entered key stays exactly until `cap` newer keys have entered. */
  lemma KeptExactlyUntilCapNewerKeys(log: seq<Outcome>, o: Outcome, more: seq<Outcome>, cap: nat)
    requires cap > 0 && o.key !in Window(log, cap)
    requires forall i :: 0 <= i < |more| ==> more[i].key != o.key
    ensures o.key in Window(log + [o] + more, cap) <==> Newer(log + [o], more, cap) < cap
  {
    var first := log + [o];
    assert first[..|log|] == log;
    var before := Inserts(log, cap);
    assert Inserts(first, cap) == before + [o.key];
    NoNewInsertOf(first, more, cap, o.key);
    var all := Inserts(first + more, cap);
    assert all[|before|] == Inserts(first, cap)[|before|];
    SuffixHolds(all, cap, |before|);
  }

  lemma SuffixHolds(all: seq<string>, cap: nat, at: nat)
    requires at < |all| && forall i :: at < i < |all| ==> all[i] != all[at]
    ensures all[at] in Suffix(all, cap) <==> |all| - at <= cap
  {
    var w := Suffix(all, cap);
    var skipped := |all| - |w|;
    assert forall p :: 0 <= p < |w| ==> w[p] == all[skipped + p];
    if |all| - at <= cap {
      assert w[at - skipped] == all[at];
    }
  }

  /** ... and as long as it stays it answers with what was last remembered for it. */
  lemma {:induction false} LatestStays(log: seq<Outcome>, o: Outcome, more: seq<Outcome>)
    requires forall i :: 0 <= i < |more| ==> more[i].key != o.key
    ensures Remembered(log + [o] + more, o.key) && Latest(log + [o] + more, o.key) == o.entry
  {
    assert (log + [o] + more)[|log|] == o;
    if more == [] {
      assert log + [o] + more == log + [o];
    } else {
      var init := more[..|more| - 1];
      LatestStays(log, o, init);
      var all := log + [o] + more;
      assert all[..|all| - 1] == log + [o] + init;
    }
  }

  // ---------------------------------------------------------------- the cache

  /** The cached keys are exactly the window, each with its latest outcome. */
  ghost predicate Caches(cache: map<string, Entry>, order: seq<string>, log: seq<Outcome>) {
    && (forall k :: k in cache <==> k in order)
    && (forall k :: k in order ==> Remembered(log, k) && cache[k] == Latest(log, k))
  }

  lemma LatestAfter(log: seq<Outcome>, o: Outcome, k: string)
    ensures k == o.key ==> Remembered(log + [o], k) && Latest(log + [o], k) == o.entry
    ensures k != o.key && Remembered(log, k) ==> Remembered(log + [o], k) && Latest(log + [o], k) == Latest(log, k)
  {
    var all := log + [o];
    assert all[..|log|] == log && all[|log|] == o;
    if k != o.key && Remembered(log, k) {
      var i :| 0 <= i < |log| && log[i].key == k;
      assert all[i].key == k;
    }
  }

  lemma CachesAfter(cache: map<string, Entry>, order: seq<string>, log: seq<Outcome>, o: Outcome,
                    cache': map<string, Entry>, order': seq<string>)
    requires Caches(cache, order, log)
    requires forall k :: k in cache' <==> k in order'
    requires forall k :: k in order' ==> k == o.key || k in order
    requires forall k :: k in cache' ==> cache'[k] == if k == o.key || k !in cache then o.entry else cache[k]
    ensures Caches(cache', order', log + [o])
  {
    forall k | k in order' ensures Remembered(log + [o], k) && cache'[k] == Latest(log + [o], k) {
      LatestAfter(log, o, k);
    }
  }

  /** The whole cache is the specification's: window, entries and bound. */
  ghost predicate Refines(cache: map<string, Entry>, order: seq<string>, log: seq<Outcome>, cap: int) {
    && cap > 0
    && order == Window(log, cap)
    && Distinct(order) && |order| <= cap
    && Caches(cache, order, log)
  }

  lemma KnownKeyRefines(cache: map<string, Entry>, order: seq<string>, log: seq<Outcome>, cap: int, o: Outcome)
    requires Refines(cache, order, log, cap) && o.key in cache
    ensures Refines(cache[o.key := o.entry], order, log + [o], cap)
  {
    WindowAfter(log, o, cap);
    CachesAfter(cache, order, log, o, cache[o.key := o.entry], order);
  }

  lemma NewKeyRefines(cache: map<string, Entry>, order: seq<string>, log: seq<Outcome>, cap: int, o: Outcome)
    requires Refines(cache, order, log, cap) && o.key !in cache && |order| < cap
    ensures Refines(cache[o.key := o.entry], order + [o.key], log + [o], cap)
  {
    WindowAfter(log, o, cap);
    WindowIsDistinct(log + [o], cap);
    CachesAfter(cache, order, log, o, cache[o.key := o.entry], order + [o.key]);
  }

  lemma TailMembers(order: seq<string>)
    requires order != [] && Distinct(order)
    ensures forall k :: k in order[1..] <==> k in order && k != order[0]
  {
    assert order == [order[0]] + order[1..];
  }

  lemma EvictionRefines(cache: map<string, Entry>, order: seq<string>, log: seq<Outcome>, cap: int, o: Outcome)
    requires Refines(cache, order, log, cap) && o.key !in cache && |order| == cap
    ensures Refines((cache - {order[0]})[o.key := o.entry], order[1..] + [o.key], log + [o], cap)
  {
    WindowAfter(log, o, cap);
    WindowIsDistinct(log + [o], cap);
    EvictionCaches(cache, order, log, o);
  }

  lemma EvictionCaches(cache: map<string, Entry>, order: seq<string>, log: seq<Outcome>, o: Outcome)
    requires Caches(cache, order, log) && Distinct(order) && order != [] && o.key !in cache
    ensures Caches((cache - {order[0]})[o.key := o.entry], order[1..] + [o.key], log + [o])
  {
    TailMembers(order);
    var order', cache' := order[1..] + [o.key], (cache - {order[0]})[o.key := o.entry];
    assert forall k :: k in order' <==> k in order[1..] || k == o.key;
    CachesAfter(cache, order, log, o, cache', order');
  }

  /** The order list and the map after one more outcome. */
  function NextOrder(order: seq<string>, cap: int, key: string): seq<string> {
    if key in order then order
    else if |order + [key]| > cap then (order + [key])[1..] else order + [key]
  }

  function NextCache(cache: map<string, Entry>, order: seq<string>, cap: int, o: Outcome): map<string, Entry> {
    if o.key !in order && |order + [o.key]| > cap then (cache - {(order + [o.key])[0]})[o.key := o.entry]
    else cache[o.key := o.entry]
  }

  lemma RememberRefines(cache: map<string, Entry>, order: seq<string>, log: seq<Outcome>, cap: int, o: Outcome)
    requires Refines(cache, order, log, cap)
    ensures Refines(NextCache(cache, order, cap, o), NextOrder(order, cap, o.key), log + [o], cap)
    ensures o.key in cache <==> o.key in order
  {
    if o.key in cache {
      KnownKeyRefines(cache, order, log, cap, o);
    } else if |order| < cap {
      NewKeyRefines(cache, order, log, cap, o);
    } else {
      EvictionRefines(cache, order, log, cap, o);
      assert (order + [o.key])[1..] == order[1..] + [o.key] && (order + [o.key])[0] == order[0];
    }
  }

  class Idempotency {
    var cache: map<string, Entry>
    var order: seq<string>
    var cap: int
    ghost var log: seq<Outcome>

    /** The order list is duplicate-free and lists exactly the cached keys, the last cap that entered,
        and each key holds its latest outcome. */
    ghost predicate Valid()
      reads this
    {
      Refines(cache, order, log, cap)
    }

    constructor (capacity: int)
      ensures Valid() && log == []
      ensures cap == if capacity <= 0 then 1024 else capacity
    {
      cache := map[];
      order := [];
      cap := if capacity <= 0 then 1024 else capacity;
      log := [];
    }

    method Result(key: string, requestHash: string) returns (r: Lookup)
      requires Valid()
      ensures r.Miss? <==> key == "" || key !in Window(log, cap)
      ensures !r.Miss? ==> Remembered(log, key) && (r.Mismatch? <==> Latest(log, key).requestHash != requestHash)
      ensures r.Replay? ==> r == Replay(Latest(log, key).status, Latest(log, key).body)
    {
      if key == "" {
        return Miss;
      }
      if key !in cache {
        return Miss;
      }
      var e := cache[key];
      if e.requestHash != requestHash {
        return Mismatch;
      }
      r := Replay(e.status, e.body);
    }

    method Remember(key: string, requestHash: string, status: int, body: Bytes)
      requires Valid()
      modifies this
      ensures Valid() && cap == old(cap)
      ensures log == if key == "" then old(log) else old(log) + [Outcome(key, Entry(requestHash, status, body))]
    {
      if key == "" {
        return;
      }
      var entry := Entry(requestHash, status, body);
      RememberRefines(cache, order, log, cap, Outcome(key, entry));
      if key !in cache {
        order := order + [key];
        if |order| > cap {
          var evict := order[0];
          order := order[1..];
          cache := cache - {evict};
        }
      }
      cache := cache[key := entry];
      log := log + [Outcome(key, entry)];
    }
  }

  // ---------------------------------------------------------------- the request fingerprint

  /** What RequestHash feeds to SHA-256. */
  function Framed(verb: Bytes, path: Bytes, body: Bytes): Bytes {
    verb + [0] + path + [0] + body
  }

  lemma FirstNul(a: Bytes, x: Bytes, b: Bytes, y: Bytes)
    requires 0 !in a && 0 !in b && a + [0] + x == b + [0] + y
    ensures a == b && x == y
  {
    var s := a + [0] + x;
    assert s[|a|] == 0 && s[|b|] == 0;
    assert forall k :: 0 <= k < |a| ==> s[k] == a[k] && a[k] != 0;
    assert forall k :: 0 <= k < |b| ==> s[k] == b[k] && b[k] != 0;
    assert |a| == |b|;
    assert a == s[..|a|] == b;
    assert x == s[|a| + 1..] == y;
  }

  /** With no NUL byte in the method and path (HTTP allows none), different requests are framed
      differently, whatever their bodies hold. */
  lemma FramingIsInjective(verb: Bytes, path: Bytes, body: Bytes, verb': Bytes, path': Bytes, body': Bytes)
    requires 0 !in verb && 0 !in path && 0 !in verb' && 0 !in path'
    requires Framed(verb, path, body) == Framed(verb', path', body')
    ensures verb == verb' && path == path' && body == body'
  {
    assert Framed(verb, path, body) == verb + [0] + (path + [0] + body);
    assert Framed(verb', path', body') == verb' + [0] + (path' + [0] + body');
    FirstNul(verb, path + [0] + body, verb', path' + [0] + body');
    FirstNul(path, body, path', body');
  }

  /** A NUL in the path is enough to make two different requests collide. */
  lemma FramingNeedsNulFreePaths()
    ensures exists p, b, p', b': Bytes :: p != p' && b != b' && Framed([1], p, b) == Framed([1], p', b')
  {
    var p: Bytes, b: Bytes, p': Bytes, b': Bytes := [2], [3, 0, 4], [2, 0, 3], [4];
    assert Framed([1], p, b) == [1, 0, 2, 0, 3, 0, 4] == Framed([1], p', b');
  }
}
