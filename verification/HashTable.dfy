/**
 The chained hash table of lib/cc_hash_table.c over the doubly linked lists of lib/cc_double_link.c.

 Three linked structures share the heap: an array of bucket lists whose sentinels are created on demand, a list that
 indexes the non-empty buckets, and the back pointer from each bucket sentinel into that index.
 A public operation of the source holds the table's mutex throughout, so it is one method here.
 */
module HashTable {
  import Bytes
  import opened Pointers
  import opened DoubleLink
  import opened BucketModel
  import opened Traversal

  const INT_LIMIT := 0x8000_0000

  /** Converting an unsigned int to int. */
  function AsInt(u: nat): int
    requires u < Bytes.UINT_RANGE
  {
    if u < INT_LIMIT then u else u - Bytes.UINT_RANGE
  }

  /** What the data pointer of a list element points at. */
  datatype Cell<!K, !V> = BucketNumber(bucket: nat) | IndexNode(node: Element<Cell<K, V>>) | Pair(e: HashEntry<K, V>)

  type Node<!K, !V> = Element<Cell<K, V>>

  type Node?<!K, !V> = Element?<Cell<K, V>>

  lemma {:induction false} ElementsOf<A>(s: seq<A>)
    requires Distinct(s)
    ensures |set x | x in s| == |s|
  {
    if s != [] {
      ElementsOf(s[1..]);
      assert (set x | x in s) == {s[0]} + (set x | x in s[1..]);
    }
  }

  class HashTable<K(!new), V> {
    const compare: (K, K) -> bool
    const hash: K -> nat
    ghost const slot: K -> nat
    const buckets: array<Element?<Cell<K, V>>>
    const nonemptyBucketIndex: Node<K, V>
    var length: nat  // an unsigned int

    ghost var wraps: int                       // how often length has wrapped around
    ghost var lists: seq<seq<Node<K, V>>>      // the elements of every bucket list, and last those of the index list
    ghost var entries: seq<Chain<K, V>>        // the contents of every bucket
    ghost var order: seq<nat>                  // the bucket numbers in the index list
    ghost var nodes: set<Node<K, V>>           // every list element the table owns
    ghost var owned: set<HashEntry<K, V>>      // every entry the table owns

    ghost function N(): nat {
      buckets.Length
    }

    /** Every element belongs to exactly one of the lists, and every list is a proper chain. */
    ghost predicate Lists()
      reads this`lists, this`nodes, nodes
    {
      && |lists| == N() + 1
      && (forall j, k :: 0 <= j <= N() && 0 <= k < |lists[j]| ==> lists[j][k] in nodes && lists[j][k].list == j)
      && (forall n :: n in nodes ==> n.list <= N() && n in lists[n.list])
      && (forall j :: 0 <= j <= N() ==> Linked(lists[j]))
    }

    /**
     What the lists hold, and how the bucket array, the sentinels and the index refer to each other. Bucket skip is the
     one, if any, that has a sentinel but is not in the index yet, or not any more.
     */
    ghost predicate Wiring(skip: int)
      requires Lists()
      reads this`lists, this`nodes, this`entries, this`order, buckets, nodes
    {
      && |entries| == N()
      && |lists[N()]| == |order| + 1 && lists[N()][0] == nonemptyBucketIndex
      && (forall i :: 0 <= i < N() ==>
            if buckets[i] == null then lists[i] == [] && entries[i] == []
            else |lists[i]| == |entries[i]| + 1 && lists[i][0] == buckets[i])
      && (forall i, k :: 0 <= i < N() && 0 <= k < |entries[i]| ==> lists[i][k + 1].data == Ref(Pair(entries[i][k])))
      && (forall i {:trigger i in order} :: 0 <= i < N() ==> (i in order <==> buckets[i] != null && i != skip))
      && (forall k :: 0 <= k < |order| ==>
            && order[k] < N() && buckets[order[k]] != null
            && lists[N()][k + 1].data == Ref(BucketNumber(order[k]))
            && buckets[order[k]].data == Ref(IndexNode(lists[N()][k + 1])))
    }

    ghost predicate Core(skip: int)
      reads this`lists, this`nodes, this`entries, this`order, this`length, buckets, nodes
    {
      Lists() && Wiring(skip) && |entries| == N() == |lists| - 1 && length < Bytes.UINT_RANGE
    }

    constructor (compare: (K, K) -> bool, hash: K -> nat, size: nat)
      requires 0 < size < Bytes.UINT_RANGE && KeyFunctions(compare, hash)
      ensures Valid() && Map() == map[] && fresh(nodes) && fresh(buckets) && owned == {}
      ensures this.compare == compare && this.hash == hash && buckets.Length == size
    {
      hide Valid;
      this.compare, this.hash, length, wraps := compare, hash, 0, 0;
      slot := key => hash(key) % size;
      buckets := new Element?<Cell<K, V>>[size](_ => null);
      var index := CreateDlist<Cell<K, V>>(size);
      nonemptyBucketIndex := index;
      lists := seq(size, _ => []) + [[index]];
      entries, order, nodes, owned := seq(size, _ => []), [], {index}, {};
      new;
      NewIsValid();
    }

    lemma NewIsValid()
      requires Slots() && Linked([nonemptyBucketIndex]) && nonemptyBucketIndex.list == N()
      requires lists == seq(N(), _ => []) + [[nonemptyBucketIndex]] && entries == seq(N(), _ => []) && order == []
      requires nodes == {nonemptyBucketIndex} && owned == {} && length == wraps == 0
      requires forall i :: 0 <= i < N() ==> buckets[i] == null
      ensures Valid() && Map() == map[]
    {
      assert WellFormed(compare, slot, entries);
      assert Keys(entries) == {};
    }

    // ---------- the lists, whatever they hold ----------

    /** Replacing the elements of list j, and touching no element of another list, keeps the lists in order. */
    twostate lemma ListsKept(j: nat, new s: seq<Node<K, V>>)
      requires old(Lists()) && j <= N()
      requires lists == old(lists)[j := s] && Linked(s)
      requires forall n :: n in old(nodes) && old(n.list) != j ==> n in nodes
      requires forall n :: n in nodes ==> n in s || (n in old(nodes) && old(n.list) != j)
      requires forall n :: n in s ==> n in nodes && n.list == j
      requires forall n {:trigger n.list} :: n in old(nodes) ==> n.list == old(n.list)
      requires forall n {:trigger n.live} :: n in old(nodes) && old(n.list) != j ==> n.live == old(n.live)
      requires forall n {:trigger n.prev} :: n in old(nodes) && old(n.list) != j ==> n.prev == old(n.prev)
      requires forall n {:trigger n.next} :: n in old(nodes) && old(n.list) != j ==> n.next == old(n.next)
      ensures Lists()
    {
      forall i | 0 <= i <= N() && i != j ensures Linked(lists[i]) {
        assert old(Linked(lists[i]));
        assert forall k :: 0 <= k < |lists[i]| ==> old(lists[i][k] in nodes);
      }
    }

    /** The lists do not depend on what their elements hold. */
    twostate lemma ListsSame()
      requires old(Lists()) && lists == old(lists) && nodes == old(nodes)
      requires forall n {:trigger n.list} :: n in nodes ==> n.list == old(n.list)
      requires forall n {:trigger n.live} :: n in nodes ==> n.live == old(n.live)
      requires forall n {:trigger n.prev} :: n in nodes ==> n.prev == old(n.prev)
      requires forall n {:trigger n.next} :: n in nodes ==> n.next == old(n.next)
      ensures Lists()
    {
      forall j | 0 <= j <= N() ensures Linked(lists[j]) {
        assert old(Linked(lists[j]));
        assert forall k :: 0 <= k < |lists[j]| ==> old(lists[j][k] in nodes);
      }
    }

    lemma ListCount(j: nat)
      requires Lists() && j <= N()
      ensures Distinct(lists[j])
      ensures (set n | n in lists[j]) <= nodes && |set n | n in lists[j]| == |lists[j]|
    {
      LinkedDistinct(lists[j]);
      ElementsOf(lists[j]);
    }

    lemma InsertAtMembers<A>(s: seq<A>, p: nat, x: A, y: A)
      requires p <= |s|
      ensures y in InsertAt(s, p, x) <==> y == x || y in s
    {
      if k :| 0 <= k < |s| && s[k] == y {
        assert InsertAt(s, p, x)[if k < p then k else k + 1] == y;
      }
    }

    method PushElement(ghost j: nat, first: Node<K, V>, data: Ptr<Cell<K, V>>) returns (node: Node<K, V>)
      requires Lists() && j <= N() && lists[j] != [] && lists[j][0] == first
      modifies this`lists, this`nodes, nodes`prev, nodes`next
      ensures Lists() && fresh(node) && node.data == data
      ensures lists == old(lists)[j := InsertAt(old(lists[j]), 1, node)]
      ensures nodes == old(nodes) + {node} && |nodes| == |old(nodes)| + 1
    {
      assert forall k :: 0 <= k < |lists[j]| ==> lists[j][k].list == j;
      node := InsertAfter(first, data, lists[j], 0);
      lists, nodes := lists[j := InsertAt(lists[j], 1, node)], nodes + {node};
      forall n | n in nodes && n.list == j ensures n in lists[j] {
        InsertAtMembers(old(lists[j]), 1, node, n);
      }
      ListsKept(j, lists[j]);
    }

    method TakeElement(ghost j: nat, node: Node<K, V>, ghost p: nat)
      requires Lists() && j <= N() && p < |lists[j]| && lists[j][p] == node
      modifies this`lists, this`nodes, nodes`prev, nodes`next, node`live
      ensures Lists() && !node.live
      ensures lists == old(lists)[j := RemoveAt(old(lists[j]), p)]
      ensures nodes == old(nodes) - {node} && |nodes| == |old(nodes)| - 1
    {
      assert forall k :: 0 <= k < |lists[j]| ==> lists[j][k].list == j;
      ListCount(j);
      DeleteDlistElement(node, lists[j], p);
      lists, nodes := lists[j := RemoveAt(lists[j], p)], nodes - {node};
      forall n ensures n in lists[j] <==> n in old(lists[j]) && n != node {
        RemoveAtMembers(old(lists[j]), p, n);
      }
      ListsKept(j, lists[j]);
    }

    method TakeList(ghost j: nat, first: Node<K, V>)
      requires Lists() && j <= N() && lists[j] != [] && lists[j][0] == first
      modifies this`lists, this`nodes, nodes`live
      ensures Lists() && forall n :: n in old(lists[j]) ==> !n.live
      ensures lists == old(lists)[j := []]
      ensures nodes == old(nodes) - (set n | n in old(lists[j])) && |nodes| == |old(nodes)| - |old(lists[j])|
    {
      assert forall k :: 0 <= k < |lists[j]| ==> lists[j][k].list == j;
      ListCount(j);
      DeleteDlist(first, lists[j], 0);
      nodes := nodes - (set n | n in lists[j]);
      lists := lists[j := []];
      ListsKept(j, []);
    }

    // ---------- buckets, sentinels and index ----------

    twostate lemma EntryLinked(i: nat, new x: Node<K, V>, new e: HashEntry<K, V>)
      requires old(Core(-1)) && Lists() && length < Bytes.UINT_RANGE
      requires i < N() && buckets[i] != null && buckets[..] == old(buckets[..])
      requires lists == old(lists)[i := InsertAt(old(lists[i]), 1, x)] && x.data == Ref(Pair(e))
      requires forall n {:trigger n.data} :: n in old(nodes) ==> n.data == old(n.data)
      requires entries == old(entries)[i := [e] + old(entries[i])] && order == old(order)
      ensures Core(-1)
    {
      forall j | 0 <= j < N() ensures buckets[j] == old(buckets[j]) {
        assert buckets[..][j] == old(buckets[..])[j];
      }
    }

    /** The number of entries ever counted in less those counted out; length is what an unsigned int keeps of it. */
    ghost function Size(): int
      reads this`length, this`wraps
    {
      length + wraps * Bytes.UINT_RANGE
    }

    method CountIn(e: HashEntry<K, V>, ghost i: nat)
      requires length < Bytes.UINT_RANGE && i < |entries|
      modifies this`entries, this`owned, this`length, this`wraps
      ensures length < Bytes.UINT_RANGE && Size() == old(Size()) + 1
      ensures entries == old(entries)[i := [e] + old(entries)[i]] && owned == old(owned) + {e}
    {
      entries, owned := entries[i := [e] + entries[i]], owned + {e};
      if length == Bytes.UINT_RANGE - 1 {
        length, wraps := 0, wraps + 1;
      } else {
        length := length + 1;
      }
    }

    method CountOut(ghost i: nat, ghost p: nat)
      requires length < Bytes.UINT_RANGE && i < |entries| && p < |entries[i]|
      modifies this`entries, this`owned, this`length, this`wraps
      ensures length < Bytes.UINT_RANGE && Size() == old(Size()) - 1
      ensures entries == old(entries)[i := RemoveAt(old(entries)[i], p)] && owned == old(owned) - {old(entries)[i][p]}
    {
      entries, owned := entries[i := RemoveAt(entries[i], p)], owned - {entries[i][p]};
      if length == 0 {
        length, wraps := Bytes.UINT_RANGE - 1, wraps - 1;
      } else {
        length := length - 1;
      }
    }

    lemma SentinelAt(i: nat, skip: int)
      requires Core(skip) && i < N() && buckets[i] != null
      ensures lists[i] != [] && lists[i][0] == buckets[i] && buckets[i] in nodes && buckets[i].live
      ensures |entries| == N() == |lists| - 1
    {
    }

    lemma IndexStart(skip: int)
      requires Core(skip)
      ensures lists[N()] != [] && lists[N()][0] == nonemptyBucketIndex && nonemptyBucketIndex.live
    {
      assert Linked(lists[N()]);
    }

    /** Puts the entry right after the sentinel of bucket i. */
    method LinkEntry(i: nat, e: HashEntry<K, V>)
      requires Core(-1) && i < N() && buckets[i] != null
      modifies this`lists, this`entries, this`nodes, this`owned, this`length, this`wraps, nodes`prev, nodes`next
      ensures Core(-1) && fresh(nodes - old(nodes)) && old(nodes) <= nodes && |nodes| == |old(nodes)| + 1
      ensures entries == old(entries)[i := [e] + old(entries)[i]] && order == old(order)
      ensures owned == old(owned) + {e} && Size() == old(Size()) + 1
    {
      hide Lists, Wiring, Linked;
      SentinelAt(i, -1);
      CountIn(e, i);
      var node := PushElement(i, buckets[i], Ref(Pair(e)));
      EntryLinked(i, node, e);
    }

    twostate lemma SentinelAdded(i: nat, new sentinel: Node<K, V>)
      requires old(Core(-1)) && i < N() && old(buckets[i]) == null && Lists() && length < Bytes.UINT_RANGE
      requires buckets[..] == old(buckets[..])[i := sentinel]
      requires forall n {:trigger n.data} :: n in old(nodes) ==> n.data == old(n.data)
      requires lists == old(lists)[i := [sentinel]] && entries == old(entries) && order == old(order)
      ensures Core(i)
    {
      assert buckets[..][i] == sentinel;
      assert old(i !in order);
      forall j | 0 <= j < N() && j != i ensures buckets[j] == old(buckets[j]) {
        assert buckets[..][j] == old(buckets[..])[j];
      }
    }

    method AddSentinel(i: nat)
      requires Core(-1) && i < N() && buckets[i] == null
      modifies this`lists, this`nodes, buckets
      ensures Core(i) && buckets[i] != null
      ensures fresh(nodes - old(nodes)) && old(nodes) <= nodes && |nodes| == |old(nodes)| + 1
      ensures forall j :: 0 <= j < N() && j != i ==> buckets[j] == old(buckets[j])
    {
      hide Linked;
      var sentinel := CreateDlist<Cell<K, V>>(i);
      buckets[i] := sentinel;
      lists, nodes := lists[i := [sentinel]], nodes + {sentinel};
      ListsKept(i, [sentinel]);
      SentinelAdded(i, sentinel);
    }

    twostate lemma BucketIndexed(i: nat, new x: Node<K, V>)
      requires old(Core(i)) && Lists() && length < Bytes.UINT_RANGE
      requires i < N() && buckets[i] != null && buckets[..] == old(buckets[..])
      requires lists == old(lists)[N() := InsertAt(old(lists[N()]), 1, x)] && x.data == Ref(BucketNumber(i))
      requires buckets[i].data == Ref(IndexNode(x))
      requires forall n {:trigger n.data} :: n in old(nodes) && n != buckets[i] ==> n.data == old(n.data)
      requires entries == old(entries) && order == [i] + old(order)
      ensures Core(-1)
    {
      ListCount(i);
      forall j | 0 <= j < N() ensures buckets[j] == old(buckets[j]) {
        assert buckets[..][j] == old(buckets[..])[j];
      }
      assert lists[i][0] == buckets[i];
      assert old(i !in order);
    }

    method IndexBucket(i: nat)
      requires Core(i) && i < N() && buckets[i] != null
      modifies this`lists, this`order, this`nodes, nodes`data, nodes`prev, nodes`next
      ensures Core(-1) && order == [i] + old(order)
      ensures fresh(nodes - old(nodes)) && old(nodes) <= nodes && |nodes| == |old(nodes)| + 1
    {
      hide Lists, Wiring, Linked;
      SentinelAt(i, i);
      IndexStart(i);
      var node := PushElement(N(), nonemptyBucketIndex, Ref(BucketNumber(i)));
      label L:
      buckets[i].SetData(Ref(IndexNode(node)));
      order := [i] + order;
      ListsSame@L();
      BucketIndexed(i, node);
    }

    /** A bucket list is created empty, and its sentinel points back at the index element made for it. */
    method NewBucket(i: nat)
      requires Core(-1) && i < N() && buckets[i] == null
      modifies this`lists, this`order, this`nodes, buckets, nodes`data, nodes`prev, nodes`next
      ensures Core(-1) && buckets[i] != null && order == [i] + old(order)
      ensures fresh(nodes - old(nodes)) && old(nodes) <= nodes && |nodes| == |old(nodes)| + 2
      ensures forall j :: 0 <= j < N() && j != i ==> buckets[j] == old(buckets[j])
    {
      AddSentinel(i);
      IndexBucket(i);
    }

    twostate lemma EntryUnlinked(i: nat, new p: nat)
      requires old(Core(-1)) && Lists() && length < Bytes.UINT_RANGE
      requires i < N() && p < |old(entries[i])| && buckets[..] == old(buckets[..])
      requires lists == old(lists)[i := RemoveAt(old(lists[i]), p + 1)]
      requires forall n {:trigger n.data} :: n in old(nodes) ==> n.data == old(n.data)
      requires entries == old(entries)[i := RemoveAt(old(entries[i]), p)] && order == old(order)
      ensures Core(-1)
    {
      forall j | 0 <= j < N() ensures buckets[j] == old(buckets[j]) {
        assert buckets[..][j] == old(buckets[..])[j];
      }
    }

    lemma EntryAt(i: nat, p: nat)
      requires Core(-1) && i < N() && p < |entries[i]|
      ensures |entries| == N() == |lists| - 1 && buckets[i] != null && |lists[i]| == |entries[i]| + 1
      ensures lists[i][p + 1].data == Ref(Pair(entries[i][p])) && lists[i][p + 1].live && lists[i][p + 1] in nodes
    {
      assert Linked(lists[i]);
    }

    /** Takes the p-th entry of bucket i out of its chain and frees both the list element and the entry. */
    method UnlinkEntry(i: nat, node: Node<K, V>, ghost p: nat)
      requires Core(-1) && i < N() && p < |entries[i]| && node == lists[i][p + 1] && entries[i][p].live
      modifies this`lists, this`entries, this`nodes, this`owned, this`length, this`wraps
      modifies nodes`prev, nodes`next, nodes`live, {entries[i][p]}`live
      ensures Core(-1) && !node.live && !old(entries[i][p]).live
      ensures nodes == old(nodes) - {node} && |nodes| == |old(nodes)| - 1
      ensures entries == old(entries)[i := RemoveAt(old(entries[i]), p)] && order == old(order)
      ensures lists == old(lists)[i := RemoveAt(old(lists[i]), p + 1)]
      ensures owned == old(owned) - {old(entries[i][p])} && Size() == old(Size()) - 1
    {
      hide Linked, Wiring, Lists;
      EntryAt(i, p);
      var deleteMe := node.Data().value.e;
      CountOut(i, p);
      TakeElement(i, node, p + 1);
      label L:
      deleteMe.Free();
      ListsSame@L();
      EntryUnlinked(i, p);
    }

    lemma OrderDistinct()
      requires Core(-1)
      ensures Distinct(order)
    {
      ListCount(N());
      forall j, k | 0 <= j < k < |order| ensures order[j] != order[k] {
        assert lists[N()][j + 1] != lists[N()][k + 1];
      }
    }

    /** What the elements of the lists held they still hold. */
    twostate lemma DataKept()
      requires old(Lists()) && forall n {:trigger n.data} :: n in old(nodes) ==> n.data == old(n.data)
      ensures |old(lists)| == N() + 1
      ensures var l := old(lists); forall j, k {:trigger l[j][k]} :: 0 <= j <= N() && 0 <= k < |l[j]| ==>
                old(allocated(l[j][k])) && l[j][k].data == old(l[j][k].data)
    {
    }

    twostate lemma BucketUnindexed(i: nat, new q: nat)
      requires old(Core(-1)) && Lists() && length < Bytes.UINT_RANGE
      requires q < |old(order)| && old(order)[q] == i && buckets[..] == old(buckets[..])
      requires lists == old(lists)[N() := RemoveAt(old(lists[N()]), q + 1)] && Distinct(old(order))
      requires forall n {:trigger n.data} :: n in old(nodes) ==> n.data == old(n.data)
      requires entries == old(entries) && order == RemoveAt(old(order), q)
      ensures Core(i)
    {
      hide Lists, Linked;
      DataKept();
      forall j | 0 <= j < N() ensures buckets[j] == old(buckets[j]) {
        assert buckets[..][j] == old(buckets[..])[j];
      }
      forall j | 0 <= j < N() ensures j in order <==> buckets[j] != null && j != i {
        RemoveAtMembers(old(order), q, j);
        assert old(j in order <==> buckets[j] != null);
      }
    }

    lemma IndexedAt(q: nat)
      requires Core(-1) && q < |order|
      ensures order[q] < N() && |lists[N()]| == |order| + 1 && buckets[order[q]] != null
      ensures buckets[order[q]].data == Ref(IndexNode(lists[N()][q + 1])) && lists[N()][q + 1] in nodes
    {
    }

    /** Takes bucket i out of the index, through the pointer its sentinel keeps, and frees the index element. */
    method UnindexBucket(i: nat, ghost q: nat)
      requires Core(-1) && i < N() && buckets[i] != null && q < |order| && order[q] == i
      modifies this`lists, this`order, this`nodes, nodes`prev, nodes`next, nodes`live
      ensures Core(i) && !old(lists[N()])[q + 1].live
      ensures nodes == old(nodes) - {old(lists[N()])[q + 1]} && |nodes| == |old(nodes)| - 1
      ensures order == RemoveAt(old(order), q) && lists == old(lists)[N() := RemoveAt(old(lists[N()]), q + 1)]
    {
      hide Lists, Wiring, Linked;
      OrderDistinct();
      SentinelAt(i, -1);
      IndexedAt(q);
      TakeElement(N(), buckets[i].Data().value.node, q + 1);
      label L:
      order := RemoveAt(order, q);
      ListsSame@L();
      BucketUnindexed(i, q);
    }

    twostate lemma SentinelDropped(i: nat)
      requires old(Core(i)) && i < N() && Lists() && length < Bytes.UINT_RANGE
      requires buckets[..] == old(buckets[..])[i := null]
      requires forall n {:trigger n.data} :: n in old(nodes) && old(n.list) != i ==> n.data == old(n.data)
      requires lists == old(lists)[i := []] && entries == old(entries)[i := []] && order == old(order)
      ensures Core(-1)
    {
      assert old(i !in order);
      assert buckets[..][i] == null;
      forall j | 0 <= j < N() && j != i ensures buckets[j] == old(buckets[j]) {
        assert buckets[..][j] == old(buckets[..])[j];
      }
      assert forall j, k :: 0 <= j <= N() && j != i && 0 <= k < |lists[j]| ==> old(lists[j][k].list) == j;
    }

    /** The sentinel no longer points into the index, which its bucket has left. */
    method ClearBackPointer(ghost i: nat, sentinel: Node<K, V>)
      requires Core(i) && i < N() && sentinel == buckets[i]
      modifies sentinel`data
      ensures Core(i) && lists[i] != [] && lists[i][0] == buckets[i]
    {
      hide Linked;
      SentinelAt(i, i);
      sentinel.SetData(Null);
      ListsSame();
      StillWired(i);
    }

    twostate lemma StillWired(i: nat)
      requires old(Core(i)) && i < N() && buckets[i] != null && Lists() && length == old(length)
      requires lists == old(lists) && entries == old(entries) && order == old(order) && nodes == old(nodes)
      requires buckets[..] == old(buckets[..])
      requires forall n {:trigger n.data} :: n in nodes && n != buckets[i] ==> n.data == old(n.data)
      ensures Core(i)
    {
      forall j | 0 <= j < N() ensures buckets[j] == old(buckets[j]) {
        assert buckets[..][j] == old(buckets[..])[j];
      }
      assert old(i !in order) && lists[i][0] == buckets[i];
      assert lists[i][0].list == i && forall j, k :: 0 <= j <= N() && 0 <= k < |lists[j]| ==> lists[j][k].list == j;
      ListCount(i);
    }

    /** Frees the whole list of bucket i. */
    method DropSentinel(i: nat)
      requires Core(i) && i < N() && buckets[i] != null
      modifies this`lists, this`entries, this`nodes, buckets, nodes`data, nodes`live
      ensures Core(-1) && forall n :: n in old(lists[i]) ==> !n.live
      ensures nodes == old(nodes) - (set n | n in old(lists[i])) && |nodes| == |old(nodes)| - |old(lists[i])|
      ensures buckets[..] == old(buckets[..])[i := null]
      ensures lists == old(lists)[i := []] && entries == old(entries)[i := []]
    {
      hide Lists, Wiring;
      SentinelAt(i, i);
      ClearBackPointer(i, buckets[i]);
      label K:
      TakeList(i, buckets[i]);
      label L:
      buckets[i] := null;
      entries := entries[i := []];
      ListsSame@L();
      SentinelDropped@K(i);
    }

    /** A bucket leaves the index before its list is freed. */
    method DeleteBucket(i: nat, ghost q: nat)
      requires Core(-1) && i < N() && buckets[i] != null && q < |order| && order[q] == i
      modifies this`lists, this`order, this`entries, this`nodes, buckets, nodes`data, nodes`prev, nodes`next, nodes`live
      ensures Core(-1) && order == RemoveAt(old(order), q)
      ensures nodes <= old(nodes) && |nodes| == |old(nodes)| - 1 - |old(lists[i])|
      ensures forall n :: n in old(nodes) && n !in nodes ==> !n.live
      ensures buckets[..] == old(buckets[..])[i := null]
      ensures lists == old(lists)[N() := RemoveAt(old(lists[N()]), q + 1)][i := []]
      ensures entries == old(entries)[i := []]
    {
      hide Lists, Wiring, Linked;
      SentinelAt(i, -1);
      UnindexBucket(i, q);
      SentinelAt(i, i);
      assert lists[i] == old(lists[i]);
      DropSentinel(i);
    }

    // ---------- the public operations ----------

    /** A usable table: no bucket list is empty, the contents are a map, and every cell of memory is accounted for. */
    ghost predicate Valid()
      reads this, buckets, nodes, owned
    {
      && |entries| == N() == |lists| - 1
      && Slots() && Core(-1) && WellFormed(compare, slot, entries)
      && NonEmpty()
      && Owned()
      && |nodes| == 1 + 2 * |order| + |Map()|
      && Size() == |Map()|
    }

    /** The key functions the table was created with; slot is the bucket number they give. */
    ghost predicate Slots() {
      && N() > 0 && Slotting(compare, slot, N())
      && forall key {:trigger hash(key)} :: slot(key) == hash(key) % N()
    }

    ghost predicate Owned()
      reads this`entries, this`owned, owned
    {
      && (forall i :: 0 <= i < |entries| ==> forall e :: e in entries[i] ==> e in owned)
      && (forall e :: e in owned ==> e.live && Stored(entries, e))
    }

    ghost predicate NonEmpty()
      reads this`entries, buckets
    {
      N() == |entries| && forall i :: 0 <= i < N() && buckets[i] != null ==> entries[i] != []
    }

    ghost function Map(): map<K, Ptr<V>>
      requires Slotting(compare, slot, |entries|) && WellFormed(compare, slot, entries)
      reads this`entries
    {
      AbsMap(compare, slot, entries)
    }

    method GetBucketIndex(key: K) returns (i: nat)
      requires Valid()
      ensures i == slot(key) < N()
    {
      i := hash(key) % buckets.Length;
    }

    /** What the search through a bucket meets. */
    lemma ChainOf(i: nat)
      requires Core(-1) && i < N() && buckets[i] != null
      ensures |entries| == N() == |lists| - 1 && |lists[i]| == |entries[i]| + 1
      ensures buckets[i].live && buckets[i].next == if entries[i] == [] then null else lists[i][1]
      ensures forall p :: 0 <= p < |entries[i]| ==>
                && lists[i][p + 1].live && lists[i][p + 1].data == Ref(Pair(entries[i][p]))
                && lists[i][p + 1].next == if p + 1 == |entries[i]| then null else lists[i][p + 2]
    {
      assert Linked(lists[i]) && buckets[i] == lists[i][0];
    }

    method FindNode(i: nat, key: K) returns (e: Node?<K, V>, ghost p: nat)
      requires Core(-1) && i < N() && buckets[i] != null && forall x :: x in entries[i] ==> x.live
      ensures p == FindPos(compare, entries[i], key)
      ensures e == if p == |entries[i]| then null else lists[i][p + 1]
      ensures (e == null <==> p == |entries[i]|)
      ensures e != null ==> e == lists[i][p + 1] && e.data == Ref(Pair(entries[i][p])) && e.live && entries[i][p].live
    {
      hide Lists, Wiring, Linked;
      ChainOf(i);
      e, p := buckets[i].Next(), 0;
      while e != null
        invariant p <= |entries[i]| && e == if p == |entries[i]| then null else lists[i][p + 1]
        invariant FindPos(compare, entries[i], key) >= p
        decreases |entries[i]| - p
      {
        assert entries[i][p] in entries[i];
        if compare(key, e.Data().value.e.Key()) {
          FoundBy(compare, entries[i], key, p);
          break;
        }
        e, p := e.Next(), p + 1;
      }
    }

    lemma Found(key: K, p: nat)
      requires Valid() && p == FindPos(compare, entries[slot(key)], key)
      ensures MapLookup(Map(), compare, key) == if p < |entries[slot(key)]| then entries[slot(key)][p].value else Null
      ensures p == |entries[slot(key)]|
          ==> MapDelete(Map(), compare, key) == Map() && Without(compare, slot, entries, key) == entries
    {
      FindRefinesLookup(compare, slot, entries, key);
      WithoutRefinesDelete(compare, slot, entries, key);
    }

    lemma NoBucket(i: nat)
      requires Core(-1) && i < N() && buckets[i] == null
      ensures |entries| == N() && entries[i] == []
    {
    }

    /**
     The search every operation starts with: the bucket of the key, and the element that holds an equal key, if any.
     */
    method Find(key: K) returns (i: nat, e: Node?<K, V>, ghost p: nat)
      requires Valid()
      ensures i == slot(key) < N() && p == FindPos(compare, entries[i], key)
      ensures e == null <==> p == |entries[i]|
      ensures e != null ==> buckets[i] != null && e == lists[i][p + 1] && e.data == Ref(Pair(entries[i][p]))
      ensures e != null ==> e.live && entries[i][p].live
    {
      hide Linked, WellFormed, Wiring, Lists;
      i := GetBucketIndex(key);
      e, p := null, 0;
      if buckets[i] != null {
        e, p := FindNode(i, key);
      } else {
        NoBucket(i);
      }
    }

    lemma FoundIs(key: K)
      requires Valid()
      ensures forall k :: k in Map() && compare(key, k) ==> MapLookup(Map(), compare, key) == Map()[k]
      ensures (forall k :: k in Map() ==> !compare(key, k)) ==> MapLookup(Map(), compare, key) == Null
    {
      hide Lists, Wiring, Owned, NonEmpty;
      AbsMapApart(compare, slot, entries);
      LookupIs(Map(), compare, key);
    }

    method LookupHashEntry(key: K) returns (value: Ptr<V>)
      requires Valid()
      ensures value == MapLookup(Map(), compare, key)
      ensures forall k :: k in Map() && compare(key, k) ==> value == Map()[k]
      ensures (forall k :: k in Map() ==> !compare(key, k)) ==> value == Null
    {
      hide Lists, Wiring, WellFormed, Owned;
      var i, e, p := Find(key);
      Found(key, p);
      FoundIs(key);
      value := if e == null then Null else e.Data().value.e.Value();
    }

    lemma InIndex(i: nat) returns (q: nat)
      requires Core(-1) && i < N() && buckets[i] != null
      ensures q < |order| && order[q] == i && |lists[N()]| == |order| + 1
    {
      assert i in order;
      q :| 0 <= q < |order| && order[q] == i;
    }

    /** delete_bucket, when the list of bucket i has become empty. */
    method TrimBucket(i: nat)
      requires Core(-1) && i < N() && buckets[i] != null
      requires forall j :: 0 <= j < N() && j != i && buckets[j] != null ==> entries[j] != []
      modifies this`lists, this`entries, this`order, this`nodes, buckets, nodes`data, nodes`prev, nodes`next, nodes`live
      ensures Core(-1) && NonEmpty() && entries == old(entries) && owned == old(owned) && Size() == old(Size())
      ensures nodes <= old(nodes) && |nodes| - 2 * |order| == |old(nodes)| - 2 * |old(order)|
      ensures forall n :: n in old(nodes) && n !in nodes ==> !n.live
      ensures forall j :: 0 <= j < N() && j != i ==> lists[j] == old(lists)[j]
      ensures if entries[i] != [] then lists == old(lists) && order == old(order)
              else lists[i] == [] && Unindexed(old(lists)[N()], old(order), lists[N()], order, i)
      ensures forall n: Node<K, V> {:trigger n.live} :: old(allocated(n)) && n !in old(nodes) ==> n.live == old(n.live)
      ensures forall e: HashEntry<K, V> {:trigger e.live} :: old(allocated(e)) ==> e.live == old(e.live)
    {
      hide Lists, Wiring, Linked;
      ChainOf(i);
      if buckets[i].Next() == null {
        ghost var q := InIndex(i);
        DeleteBucket(i, q);
      }
    }

    /** delete_hash_entry once the entry has been found: unlink it, and destroy the bucket if it was its only one. */
    method UnlinkAndTrim(i: nat, node: Node<K, V>, ghost p: nat)
      requires Core(-1) && NonEmpty() && i < N() && p < |entries[i]| && node == lists[i][p + 1] && entries[i][p].live
      modifies this, buckets, nodes`data, nodes`prev, nodes`next, nodes`live, {entries[i][p]}`live
      ensures Core(-1) && NonEmpty() && !old(entries[i][p]).live
      ensures entries == old(entries)[i := RemoveAt(old(entries[i]), p)]
      ensures Unlinked(old(lists), old(order), lists, order, i, p, |old(entries)[i]|)
      ensures owned == old(owned) - {old(entries[i][p])} && Size() == old(Size()) - 1
      ensures nodes <= old(nodes) && |nodes| - 2 * |order| == |old(nodes)| - 2 * |old(order)| - 1
      ensures forall n :: n in old(nodes) && n !in nodes ==> !n.live
      ensures forall e: HashEntry<K, V> {:trigger e.live} :: old(allocated(e)) && e != old(entries[i][p]) ==>
                e.live == old(e.live)
    {
      hide Lists, Wiring, Linked;
      EntryAt(i, p);
      UnlinkEntry(i, node, p);
      ghost var mid, size := lists, |entries[i]|;
      assert node !in nodes && size == |old(entries)[i]| - 1;
      TrimBucket(i);
      assert (entries[i] != []) == (size != 0);
      UnlinkedBy(old(lists), old(order), mid, lists, order, i, p, |old(entries)[i]|);
    }

    twostate lemma OwnedWithout(key: K, new p: nat)
      requires old(Owned()) && Slotting(compare, slot, |old(entries)|) && WellFormed(compare, slot, old(entries))
      requires p == FindPos(compare, old(entries[slot(key)]), key) < |old(entries[slot(key)])|
      requires entries == Without(compare, slot, old(entries), key)
      requires owned == old(owned) - {old(entries[slot(key)][p])}
      requires forall e {:trigger e.live} :: e in owned ==> e.live == old(e.live)
      ensures Owned()
    {
      var gone := old(entries[slot(key)][p]);
      forall i, e | 0 <= i < |entries| && e in entries[i] ensures e in owned {
        assert Stored(entries, e);
        WithoutStored(compare, slot, old(entries), key, e);
        assert e != gone;
      }
      forall e | e in owned ensures Stored(entries, e) {
        WithoutStored(compare, slot, old(entries), key, e);
        if compare(key, e.key) {
          var a :| 0 <= a < |old(entries)| && e in old(entries)[a];
          var b :| 0 <= b < |old(entries)[a]| && old(entries)[a][b] == e;
          NotTheFound(compare, slot, old(entries), key, a, b);
        }
      }
    }

    twostate lemma Deleted(key: K, new p: nat)
      requires old(Valid()) && Core(-1) && NonEmpty()
      requires p == FindPos(compare, old(entries[slot(key)]), key) < |old(entries[slot(key)])|
      requires entries == Without(compare, slot, old(entries), key)
      requires owned == old(owned) - {old(entries[slot(key)][p])}
      requires forall e {:trigger e.live} :: e in owned ==> e.live == old(e.live)
      requires |nodes| - 2 * |order| == |old(nodes)| - 2 * |old(order)| - 1
      requires Size() == old(Size()) - 1
      ensures Valid() && Map() == MapDelete(old(Map()), compare, key)
    {
      hide Lists, Wiring, Owned, NonEmpty;
      OwnedWithout(key, p);
      FindRefinesLookup(compare, slot, old(entries), key);
      WithoutRefinesDelete(compare, slot, old(entries), key);
      AbsMapApart(compare, slot, old(entries));
      DeleteSize(old(Map()), compare, key);
    }

    method DeleteFound(key: K, i: nat, e: Node<K, V>, ghost p: nat)
      requires Valid() && i == slot(key) < N() && p == FindPos(compare, entries[i], key) < |entries[i]|
      requires buckets[i] != null && e == lists[i][p + 1]
      modifies this, buckets, nodes, owned
      ensures Valid() && nodes <= old(nodes) && owned <= old(owned)
      ensures Map() == MapDelete(old(Map()), compare, key)
      ensures entries == Without(compare, slot, old(entries), key)
              && Unlinked(old(lists), old(order), lists, order, i, p, |old(entries)[i]|)
      ensures forall n :: n in old(nodes) && n !in nodes ==> !n.live
      ensures forall e :: e in old(owned) && e !in owned ==> !e.live
    {
      hide Lists, Wiring, Slotting, WellFormed;
      assert entries[i][p] in entries[i];
      UnlinkAndTrim(i, e, p);
      Deleted(key, p);
    }

    method DeleteHashEntry(key: K) returns (deleted: Ptr<V>)
      requires Valid()
      modifies this, buckets, nodes, owned
      ensures Valid() && nodes <= old(nodes) && owned <= old(owned)
      ensures deleted == MapLookup(old(Map()), compare, key)
      ensures var m0 := old(Map());
              && (forall k :: k in m0 && compare(key, k) ==> deleted == m0[k])
              && ((forall k :: k in m0 ==> !compare(key, k)) ==> deleted == Null)
      ensures Map() == MapDelete(old(Map()), compare, key)
      ensures var m0, m := old(Map()), Map();
              (forall k :: k in m <==> k in m0 && !compare(key, k)) && forall k :: k in m ==> m[k] == m0[k]
      ensures entries == Without(compare, slot, old(entries), key)
      ensures Unlinked(old(lists), old(order), lists, order, slot(key),
                       FindPos(compare, old(entries)[slot(key)], key), |old(entries)[slot(key)]|)
      ensures forall n :: n in old(nodes) && n !in nodes ==> !n.live
      ensures forall e :: e in old(owned) && e !in owned ==> !e.live
    {
      hide Lists, Wiring, WellFormed, Owned;
      var i, e, p := Find(key);
      Found(key, p);
      FoundIs(key);
      DeleteIs(Map(), compare, key);
      if e == null {
        return Null;
      }
      deleted := e.Data().value.e.Value();
      DeleteFound(key, i, e, p);
    }

    method EnsureBucket(i: nat)
      requires Core(-1) && NonEmpty() && i < N()
      modifies this`lists, this`order, this`nodes, buckets, nodes`data, nodes`prev, nodes`next
      ensures Core(-1) && buckets[i] != null && fresh(nodes - old(nodes)) && old(nodes) <= nodes
      ensures owned == old(owned) && Size() == old(Size()) && entries == old(entries)
      ensures forall j :: 0 <= j < N() && j != i && buckets[j] != null ==> entries[j] != []
      ensures |nodes| - 2 * |order| == |old(nodes)| - 2 * |old(order)|
      ensures forall n: Node<K, V> {:trigger n.live} :: old(allocated(n)) ==> n.live == old(n.live)
      ensures forall x: HashEntry<K, V> {:trigger x.live} :: old(allocated(x)) ==> x.live == old(x.live)
    {
      if buckets[i] == null {
        NewBucket(i);
      }
    }

    /** The end of insert_hash_entry: a bucket on demand, and the new entry right after its sentinel. */
    method AttachNew(i: nat, e: HashEntry<K, V>)
      requires Core(-1) && NonEmpty() && i < N()
      modifies this, buckets, nodes`data, nodes`prev, nodes`next
      ensures Core(-1) && NonEmpty() && fresh(nodes - old(nodes)) && old(nodes) <= nodes
      ensures entries == old(entries)[i := [e] + old(entries)[i]]
      ensures owned == old(owned) + {e} && Size() == old(Size()) + 1
      ensures |nodes| - 2 * |order| == |old(nodes)| - 2 * |old(order)| + 1
      ensures forall n: Node<K, V> {:trigger n.live} :: old(allocated(n)) ==> n.live == old(n.live)
      ensures forall x: HashEntry<K, V> {:trigger x.live} :: old(allocated(x)) ==> x.live == old(x.live)
    {
      EnsureBucket(i);
      LinkEntry(i, e);
    }

    twostate lemma OwnedWith(new e: HashEntry<K, V>)
      requires old(Owned()) && slot(e.key) < |old(entries)|
      requires entries == With(slot, old(entries), e) && owned == old(owned) + {e} && e.live
      requires forall x {:trigger x.live} :: x in old(owned) ==> x.live == old(x.live)
      ensures Owned()
    {
      forall x | x in owned ensures Stored(entries, x) {
        WithStored(slot, old(entries), e, x);
      }
      forall i, x | 0 <= i < |entries| && x in entries[i] ensures x in owned {
        assert Stored(entries, x);
        WithStored(slot, old(entries), e, x);
      }
    }

    twostate lemma Inserted(new e: HashEntry<K, V>)
      requires old(Valid()) && Core(-1) && NonEmpty()
      requires !Has(old(Map()), compare, e.key)
      requires entries == With(slot, old(entries), e)
      requires owned == old(owned) + {e} && e.live
      requires forall x {:trigger x.live} :: x in old(owned) ==> x.live == old(x.live)
      requires |nodes| - 2 * |order| == |old(nodes)| - 2 * |old(order)| + 1
      requires Size() == old(Size()) + 1
      ensures Valid() && Map() == old(Map())[e.key := e.value]
    {
      hide Lists, Wiring, Owned, NonEmpty;
      OwnedWith(e);
      WithRefinesInsert(compare, slot, old(entries), e);
      Alike(compare, e.key, e.key, e.key);
    }

    method InsertNew(e: HashEntry<K, V>, i: nat)
      requires Valid() && i == slot(e.key) < N() && !Has(Map(), compare, e.key) && e.live
      modifies this, buckets, nodes`data, nodes`prev, nodes`next
      ensures Valid() && Map() == old(Map())[e.key := e.value]
      ensures owned == old(owned) + {e} && fresh(nodes - old(nodes)) && old(nodes) <= nodes
      ensures forall n: Node<K, V> {:trigger n.live} :: old(allocated(n)) ==> n.live == old(n.live)
      ensures forall x: HashEntry<K, V> {:trigger x.live} :: old(allocated(x)) ==> x.live == old(x.live)
    {
      AttachNew(i, e);
      Inserted(e);
    }

    method InsertAbsent(key: K, value: Ptr<V>, i: nat) returns (newEntry: HashEntry<K, V>)
      requires Valid() && i == slot(key) < N() && !Has(Map(), compare, key)
      modifies this, buckets, nodes`data, nodes`prev, nodes`next
      ensures Valid() && Map() == old(Map())[key := value]
      ensures fresh(newEntry) && owned == old(owned) + {newEntry} && newEntry.key == key && newEntry.value == value
      ensures old(nodes) <= nodes && forall n :: n in nodes ==> n in old(nodes) || fresh(n)
      ensures forall n: Node<K, V> {:trigger n.live} :: old(allocated(n)) ==> n.live == old(n.live)
      ensures forall x: HashEntry<K, V> {:trigger x.live} :: old(allocated(x)) ==> x.live == old(x.live)
    {
      hide Valid;
      newEntry := new HashEntry(key, value);
      InsertNew(newEntry, i);
    }

    method DropOld(key: K) returns (i: nat, oldValue: Ptr<V>)
      requires Valid()
      modifies this, buckets, nodes, owned
      ensures Valid() && nodes <= old(nodes) && owned <= old(owned) && i == slot(key)
      ensures oldValue == MapLookup(old(Map()), compare, key)
      ensures Map() == MapDelete(old(Map()), compare, key)
      ensures forall n :: n in old(nodes) && n !in nodes ==> !n.live
      ensures forall e :: e in old(owned) && e !in owned ==> !e.live
    {
      hide Lists, Wiring, WellFormed, Owned;
      var b, e, p := Find(key);
      Found(key, p);
      i := b;
      oldValue := Null;
      if e != null {
        oldValue := e.Data().value.e.Value();
        var _ := DeleteHashEntry(key);
      }
    }

    lemma InsertionIs(key: K, value: Ptr<V>)
      requires Valid()
      ensures var m, m' := Map(), MapInsert(Map(), compare, key, value);
              && key in m' && m'[key] == value
              && (forall k :: k != key ==> (k in m' <==> k in m && !compare(key, k)))
              && forall k :: k in m' && k != key ==> m'[k] == m[k]
    {
      hide Core, Owned, WellFormed, NonEmpty;
      InsertIs(Map(), compare, key, value);
    }

    method InsertHashEntry(key: K, value: Ptr<V>) returns (oldValue: Ptr<V>, ghost added: HashEntry<K, V>)
      requires Valid()
      modifies this, buckets, nodes, owned
      ensures Valid()
      ensures oldValue == MapLookup(old(Map()), compare, key)
      ensures var m0 := old(Map());
              && (forall k :: k in m0 && compare(key, k) ==> oldValue == m0[k])
              && ((forall k :: k in m0 ==> !compare(key, k)) ==> oldValue == Null)
      ensures Map() == MapInsert(old(Map()), compare, key, value)
      ensures key in Map() && Map()[key] == value && added.key == key && added.value == value && added in owned
      ensures var m0, m := old(Map()), Map();
              && (forall k :: k != key ==> (k in m <==> k in m0 && !compare(key, k)))
              && forall k :: k in m && k != key ==> m[k] == m0[k]
      ensures forall n :: n in nodes ==> n in old(nodes) || fresh(n)
      ensures fresh(added) && owned <= old(owned) + {added}
      ensures forall n :: n in old(nodes) && n !in nodes ==> !n.live
      ensures forall e :: e in old(owned) && e !in owned ==> !e.live
    {
      hide Lists, Wiring, WellFormed, Owned, NonEmpty;
      FoundIs(key);
      InsertionIs(key, value);
      var i;
      i, oldValue := DropOld(key);
      var e := InsertAbsent(key, value, i);
      added := e;
    }

    // ---------- what the operations keep, over any run of them ----------

    /** The shape of every reachable table. */
    lemma Shape()
      requires Valid()
      ensures forall i :: 0 <= i < N() ==>
                && (buckets[i] != null <==> entries[i] != [])
                && (buckets[i] != null <==> i in order)
      ensures Distinct(order) && |lists[N()]| == 1 + |order| && Linked(lists[N()])
              && lists[N()][0] == nonemptyBucketIndex
      ensures forall k :: 0 <= k < |order| ==>
                && order[k] < N() && buckets[order[k]] != null
                && lists[N()][k + 1].data == Ref(BucketNumber(order[k]))
                && buckets[order[k]].data == Ref(IndexNode(lists[N()][k + 1]))
      ensures forall i, k :: 0 <= i < N() && 0 <= k < |entries[i]| ==>
                && hash(entries[i][k].key) % N() == i && entries[i][k] in owned
                && |lists[i]| == |entries[i]| + 1 && lists[i][k + 1].data == Ref(Pair(entries[i][k]))
      ensures forall e, e' :: e in owned && e' in owned && compare(e.key, e'.key) ==> e == e'
      ensures |nodes| == 1 + 2 * |order| + |Map()| && forall n :: n in nodes ==> n.live
    {
      hide WellFormed;
      OrderDistinct();
      SlotsAre();
      forall i, k | 0 <= i < N() && 0 <= k < |entries[i]| ensures entries[i][k] in owned {
        assert entries[i][k] in entries[i];
      }
      forall n | n in nodes ensures n.live {
        assert Linked(lists[n.list]);
      }
      OneEntryPerKey();
    }

    lemma SlotsAre()
      requires Valid()
      ensures forall i, k :: 0 <= i < N() && 0 <= k < |entries[i]| ==> hash(entries[i][k].key) % N() == i
    {
      hide Core, Owned, NonEmpty;
    }

    /** The map is what the entries in memory say. */
    lemma MapOfEntries()
      requires Valid()
      ensures forall e :: e in owned ==> e.key in Map() && Map()[e.key] == e.value
      ensures forall k :: k in Map() ==> exists e :: e in owned && e.key == k
    {
      hide Lists, Wiring, WellFormed;
      VisitsEachOnce();
      forall k | k in Map() ensures exists e :: e in owned && e.key == k {
        var e := MappedIsStored(compare, slot, entries, k);
        VisitedIsStored(e);
      }
    }

    lemma OneEntryPerKey()
      requires Valid()
      ensures forall e, e' :: e in owned && e' in owned && compare(e.key, e'.key) ==> e == e'
    {
      hide Core;
      forall e, e' | e in owned && e' in owned && compare(e.key, e'.key) ensures e == e' {
        var a :| 0 <= a < |entries| && e in entries[a];
        var a' :| 0 <= a' < |entries| && e' in entries[a'];
        var b :| 0 <= b < |entries[a]| && entries[a][b] == e;
        var b' :| 0 <= b' < |entries[a']| && entries[a'][b'] == e';
        NotTheFound(compare, slot, entries, e.key, a', b');
        Alike(compare, e.key, e.key, e.key);
        NotTheFound(compare, slot, entries, e.key, a, b);
      }
    }

    method Step(op: Op<K, V>) returns (result: Ptr<V>)
      requires Valid()
      modifies this, buckets, nodes, owned
      ensures Valid() && (Map(), result) == MapStep(old(Map()), compare, op)
      ensures forall n :: n in nodes ==> n in old(nodes) || fresh(n)
      ensures forall e :: e in owned ==> e in old(owned) || fresh(e)
      ensures forall n :: n in old(nodes) && n !in nodes ==> !n.live
      ensures forall e :: e in old(owned) && e !in owned ==> !e.live
    {
      hide Valid;
      match op
      case Insert(key, value) =>
        ghost var added;
        result, added := InsertHashEntry(key, value);
      case Lookup(key) =>
        result := LookupHashEntry(key);
      case Delete(key) =>
        result := DeleteHashEntry(key);
    }

    /** Any run of insertions, lookups and deletions answers, and leaves the table, as the same run on a finite map. */
    method Run(ops: seq<Op<K, V>>) returns (results: seq<Ptr<V>>)
      requires Valid()
      modifies this, buckets, nodes, owned
      ensures Valid() && (Map(), results) == MapRun(old(Map()), compare, ops)
      ensures forall n :: n in nodes ==> n in old(nodes) || fresh(n)
      ensures forall e :: e in owned ==> e in old(owned) || fresh(e)
    {
      hide Core, Owned, WellFormed;
      results := [];
      for j := 0 to |ops|
        invariant Valid() && (Map(), results) == MapRun(old(Map()), compare, ops[..j])
        invariant forall n :: n in nodes ==> n in old(nodes) || fresh(n)
        invariant forall e :: e in owned ==> e in old(owned) || fresh(e)
      {
        assert ops[..j + 1][..j] == ops[..j];
        var result := Step(ops[j]);
        results := results + [result];
      }
      assert ops[..|ops|] == ops;
    }

    // ---------- traversals ----------

    method DeleteBehind(key: K, ghost t: Ahead<Node<K, V>, K, V>)
      requires Valid() && t.Holds(lists, order, entries) && t.Behind(compare, slot, key)
      modifies this, buckets, nodes, owned
      ensures Valid() && t.Holds(lists, order, entries) && nodes <= old(nodes) && owned <= old(owned)
      ensures Map() == MapDelete(old(Map()), compare, key)
    {
      var _ := DeleteHashEntry(key);
      DeletionIsBehind(t, compare, slot, key, old(lists), old(order), old(entries), lists, order, entries);
    }

    /** A callback that deletes the given keys, none of which is ahead of the traversal. */
    method RunCallback(keys: seq<K>, ghost t: Ahead<Node<K, V>, K, V>)
      requires Valid() && t.Holds(lists, order, entries)
      requires forall k :: k in keys ==> t.Behind(compare, slot, k)
      modifies this, buckets, nodes, owned
      ensures Valid() && t.Holds(lists, order, entries) && nodes <= old(nodes) && owned <= old(owned)
      ensures Map() == MapDeleteAll(old(Map()), compare, keys)
    {
      hide Core, Owned, WellFormed, Ahead<Node<K, V>, K, V>.Holds, Ahead<Node<K, V>, K, V>.Behind;
      for j := 0 to |keys|
        invariant Valid() && t.Holds(lists, order, entries) && nodes <= old(nodes) && owned <= old(owned)
        invariant Map() == MapDeleteAll(old(Map()), compare, keys[..j])
      {
        assert keys[j] in keys && keys[..j + 1][..j] == keys[..j];
        DeleteBehind(keys[j], t);
      }
      assert keys[..|keys|] == keys;
    }

    lemma NextAhead(t: Ahead<Node<K, V>, K, V>, e: Node<K, V>, calls: seq<HashEntry<K, V>>)
      requires t.tail != [] && t.rest != [] && e == t.tail[0]
      requires Valid() && t.Holds(lists, order, entries)
      requires forall x :: x in calls ==> t.Behind(compare, slot, x.key)
      ensures e.data == Ref(Pair(t.rest[0])) && e.live && t.rest[0].live
      ensures e.next == if |t.tail| == 1 then null else t.tail[1]
      ensures t.Step().Holds(lists, order, entries)
      ensures t.Step().Behind(compare, slot, t.rest[0].key)
      ensures forall x :: x in calls ==> t.Step().Behind(compare, slot, x.key)
    {
      hide NonEmpty, WellFormed;
      var k := StepAhead(t, compare, slot, lists, order, entries);
      StillBehind(t, compare, slot, calls);
      assert e.data == Ref(Pair(entries[t.current][k])) && entries[t.current][k] in entries[t.current];
      assert Linked(lists[t.current]);
    }

    /** One round of the inner loop of foreach_hash; the cursor moves on before the callback runs. */
    method VisitOne(callback: seq<HashEntry<K, V>> -> seq<nat>, calls: seq<HashEntry<K, V>>, e: Node<K, V>,
                    ghost t: Ahead<Node<K, V>, K, V>)
      returns (calls': seq<HashEntry<K, V>>, next: Node?<K, V>)
      requires t.tail != [] && t.rest != [] && e == t.tail[0]
      requires Valid() && t.Holds(lists, order, entries)
      requires forall x :: x in calls ==> t.Behind(compare, slot, x.key)
      modifies this, buckets, nodes, owned
      ensures Valid() && t.Step().Holds(lists, order, entries) && nodes <= old(nodes) && owned <= old(owned)
      ensures calls' == calls + [t.rest[0]] && next == if |t.tail| == 1 then null else t.tail[1]
      ensures forall x :: x in calls' ==> t.Step().Behind(compare, slot, x.key)
      ensures Map() == MapDeleteAll(old(Map()), compare, HandedKeys(calls', callback(calls')))
    {
      hide Valid, Ahead<Node<K, V>, K, V>.Holds, Ahead<Node<K, V>, K, V>.Behind;
      NextAhead(t, e, calls);
      var h := e.Data().value.e;
      next := e.Next();
      var key, value := h.Key(), h.Value();  // what the callback is called with
      calls' := calls + [h];
      RunCallback(HandedKeys(calls', callback(calls')), t.Step());
    }

    /** In the middle of a bucket: what has been handed out since m0, and that all of it is behind the traversal. */
    ghost predicate Underway(m0: map<K, Ptr<V>>, callback: seq<HashEntry<K, V>> -> seq<nat>,
                             before: seq<HashEntry<K, V>>, t0: Ahead<Node<K, V>, K, V>,
                             calls: seq<HashEntry<K, V>>, t: Ahead<Node<K, V>, K, V>)
      reads this, buckets, nodes, owned
    {
      && Valid() && t.Holds(lists, order, entries)
      && t == t0.(tail := t.tail, rest := t.rest)
      && calls + t.rest == before + t0.rest
      && (forall x :: x in calls ==> t.Behind(compare, slot, x.key))
      && Map() == MapDeleteAll(m0, compare, Deletions(callback, calls))
    }

    method VisitNext(ghost m0: map<K, Ptr<V>>, callback: seq<HashEntry<K, V>> -> seq<nat>,
                     ghost before: seq<HashEntry<K, V>>,
                     ghost t0: Ahead<Node<K, V>, K, V>, calls: seq<HashEntry<K, V>>, e: Node<K, V>,
                     ghost t: Ahead<Node<K, V>, K, V>)
      returns (calls': seq<HashEntry<K, V>>, next: Node?<K, V>)
      requires t.tail != [] && t.rest != [] && e == t.tail[0]
      requires Underway(m0, callback, before, t0, calls, t)
      modifies this, buckets, nodes, owned
      ensures Underway(m0, callback, before, t0, calls', t.Step())
      ensures nodes <= old(nodes) && owned <= old(owned)
      ensures next == if |t.tail| == 1 then null else t.tail[1]
    {
      DeletionsMore(m0, compare, callback, calls, t.rest[0]);
      StepBalance(t0, t, calls);
      calls', next := VisitOne(callback, calls, e, t);
    }

    method ForEachInBucket(ghost m0: map<K, Ptr<V>>, callback: seq<HashEntry<K, V>> -> seq<nat>,
                           before: seq<HashEntry<K, V>>,
                           first: Node?<K, V>, ghost t0: Ahead<Node<K, V>, K, V>)
      returns (calls: seq<HashEntry<K, V>>)
      requires Underway(m0, callback, before, t0, before, t0)
      requires first == if t0.tail == [] then null else t0.tail[0]
      modifies this, buckets, nodes, owned
      ensures Underway(m0, callback, before, t0, calls, t0.(tail := [], rest := []))
      ensures nodes <= old(nodes) && owned <= old(owned)
    {
      ghost var t := t0;
      var e := first;
      calls := before;
      while e != null
        invariant Underway(m0, callback, before, t0, calls, t)
        invariant nodes <= old(nodes) && owned <= old(owned)
        invariant |t.tail| == |t.rest| && e == if t.tail == [] then null else t.tail[0]
        decreases |t.rest|
      {
        calls, e := VisitNext(m0, callback, before, t0, calls, e, t);
        t := t.Step();
      }
    }

    /**
     Between two buckets: everything of the buckets before the a-th has been handed out, and is behind the traversal.
     */
    ghost predicate Touring(m0: map<K, Ptr<V>>, callback: seq<HashEntry<K, V>> -> seq<nat>,
                            tour: Tour<Node<K, V>, K, V>, a: nat, calls: seq<HashEntry<K, V>>)
      reads this, buckets, nodes, owned
    {
      && Valid() && |entries| == N() && tour.Holds(a, lists, order, entries)
      && calls == Visit(tour.order0[..a], tour.entries0)
      && (forall x :: x in calls ==> slot(x.key) !in tour.order0[a..])
      && Map() == MapDeleteAll(m0, compare, Deletions(callback, calls))
    }

    lemma IndexShape()
      requires Core(-1)
      ensures |lists[N()]| == |order| + 1
      ensures forall k :: 0 <= k < |order| ==> order[k] < N() && |lists[order[k]]| == |entries[order[k]]| + 1
      ensures forall k {:trigger lists[N()][k]} :: 0 <= k <= |order| ==>
                lists[N()][k].live && lists[N()][k].next == if k == |order| then null else lists[N()][k + 1]
    {
      assert Linked(lists[N()]);
    }

    lemma EnterUnderway(m0: map<K, Ptr<V>>, callback: seq<HashEntry<K, V>> -> seq<nat>, tour: Tour<Node<K, V>, K, V>,
                        a: nat, calls: seq<HashEntry<K, V>>) returns (q: nat)
      requires Touring(m0, callback, tour, a, calls) && a < |tour.order0|
      ensures Underway(m0, callback, calls, tour.Enter(a), calls, tour.Enter(a))
      ensures q < |order| && order[q] == tour.order0[a] && lists[N()][q + 1] == tour.lists0[N()][a + 1]
      ensures lists[N()][q + 1].live
      ensures lists[N()][q + 1].next == if a + 1 == |tour.order0| then null else tour.lists0[N()][a + 2]
    {
      hide Lists, Wiring, Owned, WellFormed, NonEmpty;
      q := EnterBucket(tour, a, lists, order, entries);
      IndexShape();
      EnterBehind(tour, a, compare, slot, calls);
    }

    lemma LeaveUnderway(m0: map<K, Ptr<V>>, callback: seq<HashEntry<K, V>> -> seq<nat>, tour: Tour<Node<K, V>, K, V>,
                        a: nat, before: seq<HashEntry<K, V>>, calls: seq<HashEntry<K, V>>)
      requires tour.Proper() && a < |tour.order0| && |tour.entries0| == N()
      requires Underway(m0, callback, before, tour.Enter(a), calls, tour.Enter(a).(tail := [], rest := []))
      requires before == Visit(tour.order0[..a], tour.entries0)
      ensures Touring(m0, callback, tour, a + 1, calls)
    {
      LeaveBucket(tour, a, lists, order, entries);
      VisitNextBucket(tour.order0, tour.entries0, a);
      assert calls + [] == calls;
    }

    /** The traversals convert the bucket numbers that they find in the index to int. */
    ghost predicate IndexFitsInt()
      reads this
    {
      forall k :: 0 <= k < |order| ==> order[k] < INT_LIMIT
    }

    /** One round of the outer loop of foreach_hash; the index cursor moves on before the bucket is visited. */
    method ForEachInNextBucket(ghost m0: map<K, Ptr<V>>, callback: seq<HashEntry<K, V>> -> seq<nat>,
                               calls: seq<HashEntry<K, V>>, nonempty: Node<K, V>,
                               ghost tour: Tour<Node<K, V>, K, V>, ghost a: nat)
      returns (calls': seq<HashEntry<K, V>>, next: Node?<K, V>)
      requires Touring(m0, callback, tour, a, calls) && a < |tour.order0| && nonempty == tour.lists0[N()][a + 1]
      requires forall k :: 0 <= k < |tour.order0| ==> tour.order0[k] < INT_LIMIT
      modifies this, buckets, nodes, owned
      ensures Touring(m0, callback, tour, a + 1, calls')
      ensures nodes <= old(nodes) && owned <= old(owned)
      ensures next == if a + 1 == |tour.order0| then null else tour.lists0[N()][a + 2]
    {
      ghost var q := EnterUnderway(m0, callback, tour, a, calls);
      assert nonempty.data == Ref(BucketNumber(order[q]));
      var i := AsInt(nonempty.Data().value.bucket);
      next := nonempty.Next();
      calls' := calls;
      if buckets[i] != null {
        assert Linked(lists[i]) && buckets[i] == lists[i][0];
        calls' := ForEachInBucket(m0, callback, calls, buckets[i].Next(), tour.Enter(a));
        LeaveUnderway(m0, callback, tour, a, calls, calls');
      }
    }

    lemma StartTour(callback: seq<HashEntry<K, V>> -> seq<nat>) returns (m0: map<K, Ptr<V>>)
      requires Valid()
      ensures m0 == Map() && Touring(m0, callback, Tour(order, lists, entries), 0, [])
      ensures nonemptyBucketIndex.live
      ensures nonemptyBucketIndex.next == if order == [] then null else lists[N()][1]
    {
      hide Lists, Owned, NonEmpty, WellFormed;
      m0 := Map();
      OrderDistinct();
      IndexShape();
      assert order[0..] == order && order[..0] == [];
    }

    /**
     The callback is handed every entry once, in index order, and may at each call have any of the keys handed out so
     far deleted; callback lists them by their position among the calls.
     */
    method ForEachHash(callback: seq<HashEntry<K, V>> -> seq<nat>) returns (calls: seq<HashEntry<K, V>>)
      requires Valid() && IndexFitsInt()
      modifies this, buckets, nodes, owned
      ensures Valid() && nodes <= old(nodes) && owned <= old(owned)
      ensures calls == Visit(old(order), old(entries))
      ensures (set e | e in calls) == old(owned) && |calls| == |old(Map())|
      ensures forall j, k :: 0 <= j < k < |calls| ==> calls[j].key != calls[k].key
      ensures Map() == MapDeleteAll(old(Map()), compare, Deletions(callback, calls))
      ensures Kept(old(Map()), Map(), compare, callback, calls)
    {
      hide Valid;
      VisitsEachOnce();
      ghost var tour, a := Tour(order, lists, entries), 0;
      ghost var m0 := StartTour(callback);
      calls := [];
      var nonempty := nonemptyBucketIndex.Next();
      while nonempty != null
        invariant Touring(m0, callback, tour, a, calls)
        invariant nodes <= old(nodes) && owned <= old(owned)
        invariant nonempty == if a == |tour.order0| then null else tour.lists0[N()][a + 1]
        decreases |tour.order0| - a
      {
        calls, nonempty := ForEachInNextBucket(m0, callback, calls, nonempty, tour, a);
        a := a + 1;
      }
      assert tour.order0[..a] == tour.order0;
      LeftOver(m0, compare, callback, calls);
    }

    lemma VisitedIsStored(e: HashEntry<K, V>)
      requires Core(-1)
      ensures e in Visit(order, entries) <==> Stored(entries, e)
    {
      InVisit(order, entries, e);
      if i :| 0 <= i < |entries| && e in entries[i] {
        assert i in order;
      }
    }

    /** A visit in index order reaches every stored entry exactly once, and there are as many as the map has keys. */
    lemma VisitsEachOnce()
      requires Valid()
      ensures DistinctKeys(Visit(order, entries)) && |Visit(order, entries)| == |Map()|
      ensures (set e | e in Visit(order, entries)) == owned
      ensures forall e :: e in Visit(order, entries) ==> e.key in Map() && Map()[e.key] == e.value
    {
      hide Lists, Wiring, WellFormed;
      OrderDistinct();
      IndexShape();
      var v := Visit(order, entries);
      VisitDistinct(compare, slot, order, entries);
      forall e ensures e in v <==> e in owned {
        VisitedIsStored(e);
      }
      forall e | e in v ensures e.key in Map() && Map()[e.key] == e.value {
        VisitedIsStored(e);
        StoredIsMapped(compare, slot, entries, e);
      }
      forall k | k in Map() ensures k in KeySet(v) {
        var e := MappedIsStored(compare, slot, entries, k);
        VisitedIsStored(e);
      }
      KeyCount(v);
      assert Map().Keys == KeySet(v);
    }

    /** length is the size of the map, as far as an unsigned int goes. */
    lemma LengthIsSize()
      requires Valid()
      ensures length == |Map()| % Bytes.UINT_RANGE
    {
      hide Lists, Wiring, WellFormed, Owned, NonEmpty;
    }

    // ---------- the end of a table ----------

    lemma EntriesDistinct(entries: seq<Chain<K, V>>, i: nat)
      requires Slots() && i < |entries| == N() && WellFormed(compare, slot, entries)
      ensures Distinct(entries[i])
      ensures forall j, e :: 0 <= j < N() && j != i && e in entries[j] ==> e !in entries[i]
    {
      var c := entries[i];
      forall j, k | 0 <= j < k < |c| ensures c[j] != c[k] {
        assert !Same(compare, c[j].key, c[k].key);
        Alike(compare, c[j].key, c[j].key, c[j].key);
      }
      forall j, e | 0 <= j < N() && j != i && e in entries[j] ensures e !in entries[i] {
        assert slot(e.key) == j;
      }
    }

    /** Frees the entries of bucket i and leaves their list elements. */
    method FreeEntries(i: nat)
      requires Core(-1) && i < N() && buckets[i] != null
      requires Distinct(entries[i]) && forall e :: e in entries[i] ==> e.live
      modifies (set e | e in entries[i])`live
      ensures forall e :: e in entries[i] ==> !e.live
    {
      assert Linked(lists[i]) && buckets[i] == lists[i][0];
      var e := buckets[i].Next();
      ghost var p := 0;
      while e != null
        invariant p <= |entries[i]| && e == if p == |entries[i]| then null else lists[i][p + 1]
        invariant forall k :: 0 <= k < |entries[i]| ==> entries[i][k].live == (p <= k)
        decreases |entries[i]| - p
      {
        assert e.data == Ref(Pair(entries[i][p]));
        var deleteMe := e;
        e, p := e.Next(), p + 1;
        deleteMe.Data().value.e.Free();
      }
    }

    /** Part of the table has been freed: of the given elements and entries, exactly those it still holds are alive. */
    ghost predicate Dying(nodes0: set<Node<K, V>>, owned0: set<HashEntry<K, V>>)
      reads this, buckets, nodes0, nodes, owned0
    {
      && Slots() && Core(-1) && WellFormed(compare, slot, entries) && NonEmpty()
      && nodes <= nodes0 && (forall n :: n in nodes0 && n !in nodes ==> !n.live)
      && (forall e :: e in owned0 ==> (e.live <==> Stored(entries, e)))
      && (forall i, e :: 0 <= i < |entries| && e in entries[i] ==> e in owned0)
    }

    /** The entries and the elements of bucket i have been freed, and the bucket is gone. */
    twostate lemma BucketGone(new nodes0: set<Node<K, V>>, owned0: set<HashEntry<K, V>>, new i: nat)
      requires old(allocated(nodes0)) && old(Dying(nodes0, owned0)) && i < N() && Core(-1)
      requires nodes <= old(nodes) && forall n :: n in old(nodes) && n !in nodes ==> !n.live
      requires forall n {:trigger n.live} :: n in nodes0 && n !in old(nodes) ==> n.live == old(n.live)
      requires forall e {:trigger e.live} :: e in owned0 ==> e.live == (old(e.live) && e !in old(entries)[i])
      requires buckets[..] == old(buckets[..])[i := null] && entries == old(entries)[i := []]
      ensures Dying(nodes0, owned0)
    {
      EntriesDistinct(old(entries), i);
      forall j | 0 <= j < N() ensures buckets[j] == if j == i then null else old(buckets[j]) {
        assert buckets[..][j] == old(buckets[..])[i := null][j];
      }
      forall e | e in owned0 ensures e.live <==> Stored(entries, e) {
        assert old(e.live) <==> Stored(old(entries), e);
        if j :| 0 <= j < N() && e in old(entries)[j] {
          assert e !in old(entries)[i] ==> e in entries[j];
        }
      }
    }

    lemma NextDying(nodes0: set<Node<K, V>>, owned0: set<HashEntry<K, V>>)
      requires Dying(nodes0, owned0) && order != []
      ensures Core(-1) && nodes <= nodes0 && |lists[N()]| == |order| + 1
      ensures var i := order[0];
              && i < N() && buckets[i] != null && lists[N()][1].data == Ref(BucketNumber(i))
              && lists[N()][1].live && lists[N()][1].next == (if |order| == 1 then null else lists[N()][2])
              && Distinct(entries[i]) && (forall e :: e in entries[i] ==> e in owned0 && e.live)
    {
      EntriesDistinct(entries, order[0]);
      assert Linked(lists[N()]);
      assert lists[N()][1].data == Ref(BucketNumber(order[0]));
    }

    lemma RemovedSecond<A>(s: seq<A>)
      requires |s| > 1
      ensures |RemoveAt(s, 1)| == |s| - 1 && (|s| > 2 ==> RemoveAt(s, 1)[1] == s[2])
    {
    }

    method DeleteHashBucket(ghost nodes0: set<Node<K, V>>, ghost owned0: set<HashEntry<K, V>>, nonempty: Node<K, V>)
      returns (next: Node?<K, V>)
      requires Dying(nodes0, owned0) && order != [] && nonempty == lists[N()][1]
      modifies this, buckets, nodes, owned0
      ensures Dying(nodes0, owned0) && order == RemoveAt(old(order), 0)
      ensures next == if order == [] then null else lists[N()][1]
    {
      hide Dying, Lists, Wiring;
      NextDying(nodes0, owned0);
      RemovedSecond(lists[N()]);
      var i := nonempty.Data().value.bucket;
      next := nonempty.Next();
      if buckets[i] != null {
        FreeEntries(i);
        DeleteBucket(i, 0);
        BucketGone(nodes0, owned0, i);
      }
    }

    lemma StartDying()
      requires Valid()
      ensures Dying(nodes, owned)
      ensures nonemptyBucketIndex.live
      ensures nonemptyBucketIndex.next == if order == [] then null else lists[N()][1]
    {
      assert Linked(lists[N()]);
    }

    lemma OnlyIndexLeft(nodes0: set<Node<K, V>>, owned0: set<HashEntry<K, V>>)
      requires Dying(nodes0, owned0) && order == []
      ensures forall n :: n in nodes ==> n in lists[N()]
      ensures forall e :: e in owned0 ==> !e.live
    {
      forall i | 0 <= i < N() ensures lists[i] == [] && entries[i] == [] {
        assert i !in order;
      }
    }

    /** Frees every entry, every list element, and nothing else; each of them once. */
    method DeleteHash()
      requires Valid()
      modifies this, buckets, nodes, owned
      ensures forall n :: n in old(nodes) ==> !n.live
      ensures forall e :: e in old(owned) ==> !e.live
    {
      hide Valid;
      ghost var nodes0, owned0 := nodes, owned;
      StartDying();
      var nonempty := nonemptyBucketIndex.Next();
      while nonempty != null
        invariant Dying(nodes0, owned0)
        invariant nonempty == if order == [] then null else lists[N()][1]
        decreases |order|
      {
        nonempty := DeleteHashBucket(nodes0, owned0, nonempty);
      }
      OnlyIndexLeft(nodes0, owned0);
      TakeList(N(), nonemptyBucketIndex);
    }
  }
}
