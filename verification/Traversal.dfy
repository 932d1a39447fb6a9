/**
 What a traversal of the table still has ahead of it, and why deleting keys it has already handed out leaves that alone.
 Everything here is about values; the traversals themselves are in HashTable.
 */
module Traversal {
  import opened Pointers
  import opened DoubleLink
  import opened BucketModel

  ghost predicate EndsWith<A>(s: seq<A>, t: seq<A>) {
    |t| <= |s| && s[|s| - |t|..] == t
  }

  lemma EndsWithRemoved<A>(s: seq<A>, t: seq<A>, p: nat)
    requires EndsWith(s, t) && p < |s| - |t|
    ensures EndsWith(RemoveAt(s, p), t)
  {
    var r := RemoveAt(s, p);
    forall k | 0 <= k < |t| ensures r[|r| - |t|..][k] == t[k] {
      assert s[|s| - |t|..][k] == t[k];
    }
  }

  lemma NotInEnd<A>(s: seq<A>, t: seq<A>, p: nat, x: A)
    requires EndsWith(s, t) && p < |s| && s[p] == x && x !in t
    ensures p < |s| - |t|
  {
    assert forall k :: 0 <= k < |t| ==> s[|s| - |t|..][k] == t[k];
    assert forall k :: 0 <= k < |t| ==> t[k] != x;
  }

  /** The entries of the buckets in the given order, each bucket from its sentinel on. */
  ghost function Visit<K, V>(order: seq<nat>, entries: seq<Chain<K, V>>): seq<HashEntry<K, V>>
    requires forall k :: 0 <= k < |order| ==> order[k] < |entries|
  {
    if order == [] then [] else entries[order[0]] + Visit(order[1..], entries)
  }

  lemma VisitFrom<K, V>(order: seq<nat>, entries: seq<Chain<K, V>>, a: nat)
    requires a < |order| && forall k :: 0 <= k < |order| ==> order[k] < |entries|
    ensures Visit(order[a..], entries) == entries[order[a]] + Visit(order[a + 1..], entries)
  {
    assert order[a..][1..] == order[a + 1..];
  }

  lemma {:induction false} VisitNextBucket<K, V>(order: seq<nat>, entries: seq<Chain<K, V>>, a: nat)
    requires a < |order| && forall k :: 0 <= k < |order| ==> order[k] < |entries|
    ensures Visit(order[..a + 1], entries) == Visit(order[..a], entries) + entries[order[a]]
  {
    if a == 0 {
      assert order[..1][1..] == [];
    } else {
      VisitNextBucket(order[1..], entries, a - 1);
      assert order[..a + 1][1..] == order[1..][..a] && order[..a][1..] == order[1..][..a - 1];
    }
  }

  lemma InVisit<K, V>(order: seq<nat>, entries: seq<Chain<K, V>>, e: HashEntry<K, V>)
    requires forall k :: 0 <= k < |order| ==> order[k] < |entries|
    ensures e in Visit(order, entries) <==> exists k :: 0 <= k < |order| && e in entries[order[k]]
  {
    if order != [] {
      InVisit(order[1..], entries, e);
      if k :| 0 <= k < |order[1..]| && e in entries[order[1..][k]] {
        assert e in entries[order[k + 1]];
      }
      if k :| 0 <= k < |order| && e in entries[order[k]] {
        assert k == 0 || e in entries[order[1..][k - 1]];
      }
    }
  }

  ghost predicate DistinctKeys<K, V>(es: seq<HashEntry<K, V>>) {
    forall j, k :: 0 <= j < k < |es| ==> es[j].key != es[k].key
  }

  /** No entry is visited twice, and not even a key. */
  lemma {:induction false} VisitDistinct<K(!new), V>(compare: (K, K) -> bool, slot: K -> nat, order: seq<nat>,
                                                     entries: seq<Chain<K, V>>)
    requires Slotting(compare, slot, |entries|) && WellFormed(compare, slot, entries)
    requires Distinct(order) && forall k :: 0 <= k < |order| ==> order[k] < |entries|
    ensures DistinctKeys(Visit(order, entries))
  {
    if order != [] {
      var here, later := entries[order[0]], Visit(order[1..], entries);
      VisitDistinct(compare, slot, order[1..], entries);
      forall j, k | 0 <= j < k < |here| ensures here[j].key != here[k].key {
        assert !Same(compare, here[j].key, here[k].key);
        Alike(compare, here[j].key, here[j].key, here[j].key);
      }
      forall j, k | 0 <= j < |here| && 0 <= k < |later| ensures here[j].key != later[k].key {
        assert slot(entries[order[0]][j].key) == order[0];
        InVisit(order[1..], entries, later[k]);
        var a :| 0 <= a < |order[1..]| && later[k] in entries[order[1..][a]];
        var b :| 0 <= b < |entries[order[a + 1]]| && entries[order[a + 1]][b] == later[k];
        assert slot(entries[order[a + 1]][b].key) == order[a + 1];
      }
    }
  }

  ghost function KeySet<K, V>(es: seq<HashEntry<K, V>>): set<K> {
    set e | e in es :: e.key
  }

  lemma {:induction false} KeyCount<K, V>(es: seq<HashEntry<K, V>>)
    requires DistinctKeys(es)
    ensures |KeySet(es)| == |es|
  {
    if es == [] {
      assert KeySet(es) == {};
    } else {
      var e, rest := es[0], es[1..];
      KeyCount(rest);
      assert e.key !in KeySet(rest);
      assert KeySet(es) == KeySet(rest) + {e.key} by {
        assert es == [e] + rest;
      }
    }
  }

  /** The keys at those of the positions that have been handed out; the callback may have kept them. */
  function HandedKeys<K, V>(calls: seq<HashEntry<K, V>>, positions: seq<nat>): (keys: seq<K>)
    ensures forall k :: k in keys ==> exists e :: e in calls && e.key == k
  {
    if positions == [] then []
    else (if positions[0] < |calls| then [calls[positions[0]].key] else []) + HandedKeys(calls, positions[1..])
  }

  /** All the keys a callback asks to delete in the course of the given calls. */
  ghost function Deletions<K, V>(callback: seq<HashEntry<K, V>> -> seq<nat>, calls: seq<HashEntry<K, V>>): seq<K> {
    if calls == [] then [] else Deletions(callback, calls[..|calls| - 1]) + HandedKeys(calls, callback(calls))
  }

  lemma {:induction false} HandedKeysAre<K, V>(calls: seq<HashEntry<K, V>>, positions: seq<nat>, key: K)
    ensures key in HandedKeys(calls, positions)
       <==> exists q :: q in positions && q < |calls| && calls[q].key == key
  {
    if positions != [] {
      HandedKeysAre(calls, positions[1..], key);
      assert positions == [positions[0]] + positions[1..];
    }
  }

  /** A key that is deleted was asked for at some call, by the position of an entry handed out until then. */
  lemma {:induction false} DeletionAsked<K, V>(callback: seq<HashEntry<K, V>> -> seq<nat>, calls: seq<HashEntry<K, V>>,
                                               key: K) returns (j: nat, q: nat)
    requires key in Deletions(callback, calls)
    ensures q < j <= |calls| && q in callback(calls[..j]) && calls[q].key == key
  {
    var init := calls[..|calls| - 1];
    if key in Deletions(callback, init) {
      j, q := DeletionAsked(callback, init, key);
      assert init[..j] == calls[..j];
    } else {
      HandedKeysAre(calls, callback(calls), key);
      q :| q in callback(calls) && q < |calls| && calls[q].key == key;
      j := |calls|;
      assert calls[..|calls|] == calls;
    }
  }

  /** Whatever is asked for so is deleted. */
  lemma {:induction false} AskedIsDeleted<K, V>(callback: seq<HashEntry<K, V>> -> seq<nat>,
                                                calls: seq<HashEntry<K, V>>, j: nat, q: nat)
    requires q < j <= |calls| && q in callback(calls[..j])
    ensures calls[q].key in Deletions(callback, calls)
  {
    var init := calls[..|calls| - 1];
    if j < |calls| {
      assert init[..j] == calls[..j];
      AskedIsDeleted(callback, init, j, q);
    } else {
      assert calls[..|calls|] == calls;
      HandedKeysAre(calls, callback(calls), calls[q].key);
    }
  }

  /**
   m holds the bindings of m0 but for those equal to a key that the callback has asked for, which it does by the
   position of an entry handed out until then.
   */
  ghost predicate Kept<K(!new), V>(m0: map<K, Ptr<V>>, m: map<K, Ptr<V>>, compare: (K, K) -> bool,
                                   callback: seq<HashEntry<K, V>> -> seq<nat>, calls: seq<HashEntry<K, V>>)
  {
    && (forall k :: k in m <==>
          && k in m0
          && forall j, q :: 0 <= j <= |calls| && q in callback(calls[..j]) && q < j ==> !compare(calls[q].key, k))
    && forall k :: k in m ==> m[k] == m0[k]
  }

  /** What all the deletions leave, told of what the callback answers each time. */
  lemma LeftOver<K(!new), V>(m: map<K, Ptr<V>>, compare: (K, K) -> bool, callback: seq<HashEntry<K, V>> -> seq<nat>,
                       calls: seq<HashEntry<K, V>>)
    ensures var m' := MapDeleteAll(m, compare, Deletions(callback, calls));
            && Kept(m, m', compare, callback, calls)
            && (forall k :: k in m' <==>
                  && k in m
                  && forall j, q :: 0 <= j <= |calls| && q in callback(calls[..j]) && q < j ==>
                       !compare(calls[q].key, k))
            && forall k :: k in m' ==> m'[k] == m[k]
  {
    var keys := Deletions(callback, calls);
    MapDeleteAllIs(m, compare, keys);
    forall k | k in m
      ensures (forall d :: d in keys ==> !compare(d, k))
         <==> forall j, q :: 0 <= j <= |calls| && q in callback(calls[..j]) && q < j ==> !compare(calls[q].key, k)
    {
      if d :| d in keys && compare(d, k) {
        var j, q := DeletionAsked(callback, calls, d);
      }
      forall j, q | 0 <= j <= |calls| && q in callback(calls[..j]) && q < j
        ensures calls[q].key in keys
      {
        AskedIsDeleted(callback, calls, j, q);
      }
    }
  }

  lemma DeletionsMore<K, V>(m: map<K, Ptr<V>>, compare: (K, K) -> bool, callback: seq<HashEntry<K, V>> -> seq<nat>,
                            calls: seq<HashEntry<K, V>>, h: HashEntry<K, V>)
    ensures MapDeleteAll(MapDeleteAll(m, compare, Deletions(callback, calls)), compare,
                         HandedKeys(calls + [h], callback(calls + [h])))
         == MapDeleteAll(m, compare, Deletions(callback, calls + [h]))
  {
    assert (calls + [h])[..|calls|] == calls;
    MapDeleteMore(m, compare, Deletions(callback, calls), HandedKeys(calls + [h], callback(calls + [h])));
  }

  /** The index list and its bucket numbers lost the element of bucket i. */
  ghost predicate Unindexed<A>(index: seq<A>, order: seq<nat>, index': seq<A>, order': seq<nat>, i: nat) {
    exists q: nat :: q < |order| && q + 1 < |index| && order[q] == i && order' == RemoveAt(order, q)
            && index' == RemoveAt(index, q + 1)
  }

  /**
   How deletion leaves the lists, of which the last is the index: it takes the p-th of the size entries of bucket i, if
   there is one, out of its list, and if that was the only one it takes the bucket out of the index.
   */
  ghost predicate Unlinked<A>(lists: seq<seq<A>>, order: seq<nat>, lists': seq<seq<A>>, order': seq<nat>, i: nat,
                              p: nat, size: nat) {
    var n := |lists| - 1;
    && |lists'| == |lists| && i < n
    && (forall j :: 0 <= j < n && j != i ==> lists'[j] == lists[j])
    && if p < size == 1 then lists'[i] == [] && Unindexed(lists[n], order, lists'[n], order', i)
       else && lists'[n] == lists[n] && order' == order
            && if p < size && p + 1 < |lists[i]| then lists'[i] == RemoveAt(lists[i], p + 1)
               else lists'[i] == lists[i]
  }

  lemma UnlinkedBy<A>(lists: seq<seq<A>>, order: seq<nat>, mid: seq<seq<A>>,
                      lists': seq<seq<A>>, order': seq<nat>, i: nat, p: nat, size: nat)
    requires |lists'| == |lists| && i < |lists| - 1 && p < size && |lists[i]| == size + 1
    requires mid == lists[i := RemoveAt(lists[i], p + 1)]
    requires forall j :: 0 <= j < |lists| - 1 && j != i ==> lists'[j] == mid[j]
    requires if size != 1 then lists' == mid && order' == order
             else lists'[i] == [] && Unindexed(mid[|lists| - 1], order, lists'[|lists| - 1], order', i)
    ensures Unlinked(lists, order, lists', order', i, p, size)
  {
  }

  /**
   Ahead of the traversal are the buckets ahead, whose index elements are index, untouched since the start, and in the
   current bucket the entries rest, in the elements tail.
   */
  datatype Ahead<A, !K, !V> = Ahead(ahead: seq<nat>, index: seq<A>, current: nat, tail: seq<A>, rest: Chain<K, V>,
                                    lists0: seq<seq<A>>, entries0: seq<Chain<K, V>>)
  {
    ghost predicate Holds(lists: seq<seq<A>>, order: seq<nat>, entries: seq<Chain<K, V>>) {
      && |lists| == |lists0| == |entries| + 1 && |entries| == |entries0| && |ahead| == |index| && |tail| == |rest|
      && IndexHolds(lists[|entries|], order)
      && (forall b :: b in ahead ==> b < |entries| && lists[b] == lists0[b] && entries[b] == entries0[b])
      && current < |entries| && current !in ahead
      && BucketHolds(lists[current], entries[current])
    }

    ghost predicate IndexHolds(list: seq<A>, order: seq<nat>) {
      EndsWith(order, ahead) && EndsWith(list, index) && |list| == |order| + 1
    }

    ghost predicate BucketHolds(list: seq<A>, chain: Chain<K, V>) {
      rest != [] ==> EndsWith(list, tail) && EndsWith(chain, rest) && |list| == |chain| + 1
    }

    ghost function Step(): Ahead<A, K, V>
      requires tail != [] && rest != []
    {
      this.(tail := tail[1..], rest := rest[1..])
    }

    /** A key of an entry that is not ahead. */
    ghost predicate Behind(compare: (K, K) -> bool, slot: K -> nat, key: K) {
      && slot(key) !in ahead
      && (slot(key) == current ==> forall e :: e in rest ==> !compare(key, e.key))
    }
  }

  /** The first element ahead in the current bucket, and that entry's key once it has been handed out. */
  lemma StepAhead<A, K(!new), V>(t: Ahead<A, K, V>, compare: (K, K) -> bool, slot: K -> nat,
                                 lists: seq<seq<A>>, order: seq<nat>, entries: seq<Chain<K, V>>) returns (k: nat)
    requires t.Holds(lists, order, entries) && t.rest != [] && WellFormed(compare, slot, entries)
    ensures k < |entries[t.current]| && k + |t.tail| == |entries[t.current]| && k + 1 < |lists[t.current]|
    ensures t.tail[0] == lists[t.current][k + 1] && t.rest[0] == entries[t.current][k]
    ensures |t.tail| > 1 ==> t.tail[1] == lists[t.current][k + 2]
    ensures t.Step().Holds(lists, order, entries) && t.Step().Behind(compare, slot, t.rest[0].key)
  {
    var l, c := lists[t.current], entries[t.current];
    k := |c| - |t.rest|;
    assert c[k..] == t.rest && l[k + 1..] == t.tail;
    assert c[k + 1..] == t.rest[1..] && l[k + 2..] == t.tail[1..];
    forall x | x in t.rest[1..] ensures !compare(t.rest[0].key, x.key) {
      var m :| 0 <= m < |t.rest[1..]| && t.rest[1..][m] == x;
      assert c[k + 1 + m] == x;
      assert !Same(compare, c[k].key, c[k + 1 + m].key);
    }
  }

  lemma StillBehind<A, K, V>(t: Ahead<A, K, V>, compare: (K, K) -> bool, slot: K -> nat, calls: seq<HashEntry<K, V>>)
    requires t.tail != [] && t.rest != []
    requires forall x :: x in calls ==> t.Behind(compare, slot, x.key)
    ensures forall x :: x in calls ==> t.Step().Behind(compare, slot, x.key)
  {
  }

  /** A step moves one entry from what is ahead to what has been handed out. */
  lemma StepBalance<A, K, V>(t0: Ahead<A, K, V>, t: Ahead<A, K, V>, calls: seq<HashEntry<K, V>>)
    requires t.tail != [] && t.rest != [] && t == t0.(tail := t.tail, rest := t.rest)
    ensures t.Step() == t0.(tail := t.Step().tail, rest := t.Step().rest)
    ensures calls + [t.rest[0]] + t.Step().rest == calls + t.rest
  {
  }

  lemma IndexStaysAhead<A, K, V>(t: Ahead<A, K, V>, index: seq<A>, order: seq<nat>, index': seq<A>, order': seq<nat>,
                                 i: nat)
    requires |t.ahead| == |t.index| && t.IndexHolds(index, order) && i !in t.ahead
    requires Unindexed(index, order, index', order', i)
    ensures t.IndexHolds(index', order')
  {
    var q: nat :| q < |order| && q + 1 < |index| && order[q] == i && order' == RemoveAt(order, q)
            && index' == RemoveAt(index, q + 1);
    NotInEnd(order, t.ahead, q, i);
    EndsWithRemoved(order, t.ahead, q);
    EndsWithRemoved(index, t.index, q + 1);
  }

  lemma BucketStaysAhead<A, K, V>(t: Ahead<A, K, V>, list: seq<A>, chain: Chain<K, V>, p: nat)
    requires |t.tail| == |t.rest| && t.BucketHolds(list, chain) && t.rest != []
    requires p < |chain| && chain[p] !in t.rest
    ensures |chain| > 1 && t.BucketHolds(RemoveAt(list, p + 1), RemoveAt(chain, p))
  {
    NotInEnd(chain, t.rest, p, chain[p]);
    EndsWithRemoved(chain, t.rest, p);
    EndsWithRemoved(list, t.tail, p + 1);
  }

  /** Deleting a key that is behind the traversal leaves what is ahead of it as it is. */
  lemma DeletionIsBehind<A, K, V>(t: Ahead<A, K, V>, compare: (K, K) -> bool, slot: K -> nat, key: K,
                                  lists: seq<seq<A>>, order: seq<nat>, entries: seq<Chain<K, V>>,
                                  lists': seq<seq<A>>, order': seq<nat>, entries': seq<Chain<K, V>>)
    requires t.Holds(lists, order, entries) && t.Behind(compare, slot, key)
    requires slot(key) < |entries|
    requires entries' == Without(compare, slot, entries, key)
    requires Unlinked(lists, order, lists', order', slot(key),
                      FindPos(compare, entries[slot(key)], key), |entries[slot(key)]|)
    ensures t.Holds(lists', order', entries')
  {
    var i, n := slot(key), |entries|;
    var p := FindPos(compare, entries[i], key);
    assert t.IndexHolds(lists'[n], order') by {
      if p < |entries[i]| == 1 {
        IndexStaysAhead(t, lists[n], order, lists'[n], order', i);
      }
    }
    assert t.BucketHolds(lists'[t.current], entries'[t.current]) by {
      hide Unindexed;
      if i == t.current && t.rest != [] && p < |entries[i]| {
        BucketStaysAhead(t, lists[i], entries[i], p);
      }
    }
    hide Unindexed, Ahead<A, K, V>.IndexHolds, Ahead<A, K, V>.BucketHolds;
  }

  /** A traversal of all buckets, in the order the index had at its start. */
  datatype Tour<A, !K, !V> = Tour(order0: seq<nat>, lists0: seq<seq<A>>, entries0: seq<Chain<K, V>>)
  {
    ghost predicate Proper() {
      && |lists0| == |entries0| + 1 && |lists0[|entries0|]| == |order0| + 1 && Distinct(order0)
      && (forall k :: 0 <= k < |order0| ==>
            order0[k] < |entries0| && |lists0[order0[k]]| == |entries0[order0[k]]| + 1)
    }

    /** The buckets from the a-th on are still as they were at the start. */
    ghost predicate Holds(a: nat, lists: seq<seq<A>>, order: seq<nat>, entries: seq<Chain<K, V>>) {
      && Proper() && a <= |order0| && |entries| == |entries0| && |lists| == |lists0|
      && EndsWith(order, order0[a..]) && EndsWith(lists[|entries|], lists0[|entries|][a + 1..])
      && |lists[|entries|]| == |order| + 1
      && (forall k :: a <= k < |order0| ==>
                lists[order0[k]] == lists0[order0[k]] && entries[order0[k]] == entries0[order0[k]])
    }

    ghost function Enter(a: nat): Ahead<A, K, V>
      requires Proper() && a < |order0|
    {
      var i := order0[a];
      Ahead(order0[a + 1..], lists0[|entries0|][a + 2..], i, lists0[i][1..], entries0[i], lists0, entries0)
    }
  }

  lemma EnterBucket<A, K, V>(tour: Tour<A, K, V>, a: nat, lists: seq<seq<A>>, order: seq<nat>,
                             entries: seq<Chain<K, V>>)
    returns (q: nat)
    requires tour.Holds(a, lists, order, entries) && a < |tour.order0|
    ensures tour.Enter(a).Holds(lists, order, entries)
    ensures q < |order| && q + 1 < |lists[|entries|]| && order[q] == tour.order0[a]
    ensures lists[|entries|][q + 1] == tour.lists0[|entries|][a + 1]
    ensures a + 1 == |tour.order0| <==> q + 1 == |order|
    ensures a + 1 < |tour.order0| ==> lists[|entries|][q + 2] == tour.lists0[|entries|][a + 2]
  {
    var n := |entries|;
    var d, l := tour.order0, tour.lists0[n];
    q := |order| - |d[a..]|;
    assert order[q..] == d[a..] && order[q + 1..] == d[a + 1..] && order[q..][0] == d[a];
    assert lists[n][q + 1..] == l[a + 1..] && lists[n][q + 2..] == l[a + 2..] && lists[n][q + 1..][0] == l[a + 1];
    if a + 1 < |d| {
      assert lists[n][q + 2..][0] == l[a + 2];
    }
  }

  lemma EnterBehind<A, K, V>(tour: Tour<A, K, V>, a: nat, compare: (K, K) -> bool, slot: K -> nat,
                             calls: seq<HashEntry<K, V>>)
    requires tour.Proper() && a < |tour.order0|
    requires forall x :: x in calls ==> slot(x.key) !in tour.order0[a..]
    ensures forall x :: x in calls ==> tour.Enter(a).Behind(compare, slot, x.key)
  {
    assert tour.order0[a..] == [tour.order0[a]] + tour.order0[a + 1..];
  }

  lemma LeaveBucket<A, K, V>(tour: Tour<A, K, V>, a: nat, lists: seq<seq<A>>, order: seq<nat>,
                             entries: seq<Chain<K, V>>)
    requires tour.Proper() && a < |tour.order0|
    requires tour.Enter(a).(tail := [], rest := []).Holds(lists, order, entries)
    ensures tour.Holds(a + 1, lists, order, entries)
  {
    forall k | a + 1 <= k < |tour.order0| ensures tour.order0[k] in tour.Enter(a).ahead {
      assert tour.Enter(a).ahead[k - a - 1] == tour.order0[k];
    }
  }
}
