/**
 The external iterator of lib/cc_hash_table.c. It has no lock and no link back to the table, so it is good only for as
 long as the table is not modified.
 */
module HashIterator {
  import opened Pointers
  import opened DoubleLink
  import opened BucketModel
  import opened Traversal
  import opened HashTable

  /** An iterator is in the at-th bucket of the index, where the entries left are still to come. */
  ghost predicate InBucket<K, V>(lists: seq<seq<Node<K, V>>>, order: seq<nat>, entries: seq<Chain<K, V>>,
                                 bucketIndex: Node<K, V>, nextBucketIndex: Node?<K, V>, element: Node?<K, V>,
                                 at: nat, left: Chain<K, V>)
  {
    var n := |entries|;
    && |lists| == n + 1 && |lists[n]| == |order| + 1
    && at < |order| && bucketIndex == lists[n][at + 1]
    && nextBucketIndex == (if at + 1 == |order| then null else lists[n][at + 2])
    && var i := order[at];
       && i < n && |lists[i]| == |entries[i]| + 1 && EndsWith(entries[i], left)
       && element == if left == [] then null else lists[i][1 + |entries[i]| - |left|]
  }

  /** Where following the pointers from the at-th element of the index leads. */
  lemma StartOfBucket<K(!new), V>(table: HashTable<K, V>, at: nat, node: Node<K, V>)
    requires table.Valid() && at < |table.order| && node == table.lists[table.N()][at + 1]
    ensures |table.entries| == table.N() && forall k :: 0 <= k < |table.order| ==> table.order[k] < table.N()
    ensures node.data == Ref(BucketNumber(table.order[at])) && node.live
    ensures var i := table.order[at];
            && table.buckets[i] != null && table.entries[i] != [] && table.buckets[i].live
            && InBucket(table.lists, table.order, table.entries,
                        node, node.next, table.buckets[i].next, at, table.entries[i])
  {
    hide WellFormed, HashTable<K, V>.Owned;
    var i := table.order[at];
    assert Linked(table.lists[table.N()]) && Linked(table.lists[i]);
    assert table.buckets[i] == table.lists[i][0];
  }

  lemma StartOfIndex<K(!new), V>(table: HashTable<K, V>)
    requires table.Valid()
    ensures table.nonemptyBucketIndex.live
    ensures if table.order == [] then table.nonemptyBucketIndex.next == null
            else table.nonemptyBucketIndex.next != null && table.nonemptyBucketIndex.next == table.lists[table.N()][1]
    ensures |table.entries| == table.N() && forall k :: 0 <= k < |table.order| ==> table.order[k] < table.N()
    ensures Visit(table.order[0..], table.entries) == Visit(table.order, table.entries)
    ensures table.order == [] ==> Visit(table.order, table.entries) == []
  {
    assert Linked(table.lists[table.N()]) && table.order[0..] == table.order;
  }

  lemma HeadFirst<A>(s: seq<A>, t: seq<A>)
    requires s != []
    ensures [s[0]] + (s[1..] + t) == s + t
  {
  }

  lemma NextInBucket<K(!new), V>(table: HashTable<K, V>, bucketIndex: Node<K, V>, nextBucketIndex: Node?<K, V>,
                                 element: Node<K, V>, at: nat, left: Chain<K, V>)
    requires table.Valid()
    requires InBucket(table.lists, table.order, table.entries, bucketIndex, nextBucketIndex, element, at, left)
    ensures at < |table.order| && left != [] && element.data == Ref(Pair(left[0])) && element.live
    ensures InBucket(table.lists, table.order, table.entries, bucketIndex, nextBucketIndex, element.next, at, left[1..])
  {
    hide HashTable<K, V>.Owned, HashTable<K, V>.NonEmpty, WellFormed;
    var i := table.order[at];
    var k := |table.entries[i]| - |left|;
    assert Linked(table.lists[i]);
    assert table.entries[i][k..] == left && table.entries[i][k + 1..] == left[1..];
    assert table.entries[i][k] == left[0];
  }

  class Iterator<K(!new), V> {
    var buckets: array?<Element?<Cell<K, V>>>
    var bucketIndex: Element?<Cell<K, V>>
    var nextBucketIndex: Element?<Cell<K, V>>
    var element: Element?<Cell<K, V>>
    ghost var at: nat               // which bucket of the index the iterator is in
    ghost var left: Chain<K, V>     // the entries of that bucket that are still to come

    /** The iterator is somewhere in the table, or was put into an empty one. */
    ghost predicate In(table: HashTable<K, V>)
      reads this, table
    {
      && buckets == table.buckets && |table.entries| == table.N()
      && (forall k :: 0 <= k < |table.order| ==> table.order[k] < table.N())
      && (bucketIndex != null ==>
            InBucket(table.lists, table.order, table.entries, bucketIndex, nextBucketIndex, element, at, left))
    }

    /** The entries still to come. */
    ghost function Remaining(table: HashTable<K, V>): seq<HashEntry<K, V>>
      requires In(table)
      reads this, table
    {
      if bucketIndex == null then [] else left + Visit(table.order[at + 1..], table.entries)
    }

    method StartBucket(table: HashTable<K, V>, node: Node<K, V>, ghost at: nat)
      requires table.Valid() && table.IndexFitsInt() && buckets == table.buckets
      requires at < |table.order| && node == table.lists[table.N()][at + 1]
      modifies this
      ensures In(table) && Remaining(table) == Visit(table.order[at..], table.entries)
      ensures bucketIndex == node && this.at == at
    {
      hide HashTable<K, V>.Valid, InBucket, Visit;
      StartOfBucket(table, at, node);
      VisitFrom(table.order, table.entries, at);
      var i := AsInt(node.Data().value.bucket);
      bucketIndex, nextBucketIndex := node, node.Next();
      element := buckets[i].Next();
      this.at, left := at, table.entries[i];
    }

    /** The iterator's fields may hold anything when it is initialised. */
    method InitHashIterator(table: HashTable<K, V>)
      requires table.Valid() && table.IndexFitsInt()
      modifies this
      ensures In(table) && Remaining(table) == Visit(table.order, table.entries)
    {
      hide HashTable<K, V>.Valid, InBucket, Visit;
      StartOfIndex(table);
      buckets := table.buckets;
      if table.nonemptyBucketIndex.Next() != null {
        StartBucket(table, table.nonemptyBucketIndex.Next(), 0);
      } else {
        bucketIndex, element := null, null;
      }
    }

    method TakeEntry(table: HashTable<K, V>, e: Node<K, V>) returns (entry: HashEntry<K, V>)
      requires table.Valid() && In(table) && bucketIndex != null && e == element
      modifies this
      ensures In(table) && [entry] + Remaining(table) == old(Remaining(table))
    {
      hide HashTable<K, V>.Valid, InBucket, Visit;
      NextInBucket(table, bucketIndex, nextBucketIndex, e, at, left);
      entry := e.Data().value.e;
      HeadFirst(left, Visit(table.order[at + 1..], table.entries));
      element, left := e.Next(), left[1..];
    }

    lemma EndOfBucket(table: HashTable<K, V>)
      requires In(table) && bucketIndex != null && element == null
      ensures if nextBucketIndex == null then Remaining(table) == []
              else && at + 1 < |table.order| && nextBucketIndex == table.lists[table.N()][at + 2]
                   && Remaining(table) == Visit(table.order[at + 1..], table.entries)
    {
      assert left == [];
    }

    /** At the end of a bucket, on to the next one if there is one. */
    method NextBucket(table: HashTable<K, V>) returns (more: bool)
      requires table.Valid() && In(table) && table.IndexFitsInt() && bucketIndex != null && element == null
      modifies this
      ensures In(table) && Remaining(table) == old(Remaining(table)) && bucketIndex != null
      ensures if more then old(at) < at < |table.order| else Remaining(table) == []
    {
      hide HashTable<K, V>.Valid, InBucket, Visit;
      EndOfBucket(table);
      more := nextBucketIndex != null;
      if more {
        StartBucket(table, nextBucketIndex, at + 1);
      }
    }

    /** Hands out the next entry; when there is none, NULL, and NULL ever after. */
    method IterateHashNext(table: HashTable<K, V>) returns (entry: HashEntry?<K, V>)
      requires table.Valid() && In(table) && table.IndexFitsInt()
      modifies this
      ensures In(table)
      ensures entry == null <==> old(Remaining(table)) == []
      ensures old(Remaining(table)) == [] ==> Remaining(table) == []
      ensures old(Remaining(table)) != [] ==> [entry] + Remaining(table) == old(Remaining(table))
    {
      hide HashTable<K, V>.Valid, InBucket, Visit;
      while true
        invariant table.Valid() && In(table) && Remaining(table) == old(Remaining(table))
        decreases if bucketIndex == null then 0 else |table.order| - at
      {
        if bucketIndex == null {
          return null;
        }
        var e := element;
        if e == null {
          var more := NextBucket(table);
          if !more {
            return null;
          }
        } else {
          entry := TakeEntry(table, e);
          return;
        }
      }
    }
  }

  /** The way the iterator is used: initialise it, then ask until it answers NULL. */
  method IterateAll<K(!new), V>(table: HashTable<K, V>) returns (all: seq<HashEntry<K, V>>)
    requires table.Valid() && table.IndexFitsInt()
    ensures table.Valid() && DistinctKeys(all) && |all| == |table.Map()|
    ensures (set e | e in all) == table.owned
  {
    hide HashTable<K, V>.Valid, Iterator<K, V>.In, Iterator<K, V>.Remaining;
    var it := new Iterator<K, V>;
    it.InitHashIterator(table);
    ghost var whole := it.Remaining(table);
    table.VisitsEachOnce();
    all := [];
    var entry := it.IterateHashNext(table);
    while entry != null
      invariant table.Valid() && it.In(table)
      invariant entry == null ==> all == whole
      invariant entry != null ==> all + ([entry] + it.Remaining(table)) == whole
      decreases |whole| - |all|, entry != null
    {
      ghost var rest := it.Remaining(table);
      assert all + ([entry] + rest) == all + [entry] + rest;
      all := all + [entry];
      entry := it.IterateHashNext(table);
    }
  }
}
