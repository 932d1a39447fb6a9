/**
 What a hash table means, without its heap: the contents of every bucket as a sequence of entries, and the finite map,
 modulo the key comparison, that those contents stand for.
 */
module BucketModel {
  import opened Pointers
  import opened DoubleLink

  /**
   A malloc'ed key/value pair. The table never changes the two fields between malloc and free, and methods read them
   only through functions that demand that the entry is alive.
   */
  class HashEntry<K, V> {
    const key: K
    const value: Ptr<V>
    ghost var live: bool

    constructor (key: K, value: Ptr<V>)
      ensures this.key == key && this.value == value && live
    {
      this.key, this.value, live := key, value, true;
    }

    method Free()
      requires live
      modifies this`live
      ensures !live
    {
      live := false;
    }

    function Key(): K
      requires live
      reads this
    {
      key
    }

    function Value(): Ptr<V>
      requires live
      reads this
    {
      value
    }
  }

  type Chain<K, V> = seq<HashEntry<K, V>>

  /** compare, under a name the laws below can be attached to. */
  ghost predicate Same<K>(compare: (K, K) -> bool, x: K, y: K) {
    compare(x, y)
  }

  ghost predicate Equivalence<K(!new)>(compare: (K, K) -> bool) {
    && (forall x :: Same(compare, x, x))
    && (forall x, y :: Same(compare, x, y) ==> Same(compare, y, x))
    && (forall x, y, z :: Same(compare, x, y) && Same(compare, y, z) ==> Same(compare, x, z))
  }

  /** What the table demands of its two function arguments: compare is an equivalence and equal keys hash equal. */
  ghost predicate KeyFunctions<K(!new)>(compare: (K, K) -> bool, hash: K -> nat) {
    Equivalence(compare) && forall x, y {:trigger Same(compare, x, y)} :: Same(compare, x, y) ==> hash(x) == hash(y)
  }

  /** The bucket number of every key, in a table of n buckets. */
  ghost predicate Slotting<K(!new)>(compare: (K, K) -> bool, slot: K -> nat, n: nat) {
    KeyFunctions(compare, slot) && forall k :: slot(k) < n
  }

  /** The laws of an equivalence, and of a hash that respects it, at three given keys. */
  lemma Alike<K(!new)>(compare: (K, K) -> bool, x: K, y: K, z: K)
    requires Equivalence(compare)
    ensures compare(x, x) && (compare(x, y) <==> compare(y, x))
    ensures compare(x, y) && compare(y, z) ==> compare(x, z)
  {
    assert Same(compare, x, x) && (Same(compare, x, y) <==> Same(compare, y, x));
    assert Same(compare, x, y) && Same(compare, y, z) ==> Same(compare, x, z);
  }

  lemma AlikeSlots<K(!new)>(compare: (K, K) -> bool, slot: K -> nat, n: nat, x: K, y: K)
    requires Slotting(compare, slot, n)
    ensures slot(x) < n && (compare(x, y) ==> slot(x) == slot(y))
  {
    assert Same(compare, x, y) ==> slot(x) == slot(y);
  }

  // ---------- finite maps modulo compare ----------

  ghost predicate Apart<K, V>(m: map<K, V>, compare: (K, K) -> bool) {
    forall x, y :: x in m && y in m && compare(x, y) ==> x == y
  }

  ghost predicate Has<K, V>(m: map<K, V>, compare: (K, K) -> bool, key: K) {
    exists k :: k in m && compare(key, k)
  }

  ghost function MapLookup<K, V>(m: map<K, Ptr<V>>, compare: (K, K) -> bool, key: K): Ptr<V> {
    if Has(m, compare, key) then
      var k :| k in m && compare(key, k);
      m[k]
    else
      Null
  }

  ghost function MapDelete<K, V>(m: map<K, Ptr<V>>, compare: (K, K) -> bool, key: K): map<K, Ptr<V>> {
    map k | k in m && !compare(key, k) :: m[k]
  }

  ghost function MapInsert<K, V>(m: map<K, Ptr<V>>, compare: (K, K) -> bool, key: K, value: Ptr<V>): map<K, Ptr<V>> {
    MapDelete(m, compare, key)[key := value]
  }

  ghost function MapDeleteAll<K, V>(m: map<K, Ptr<V>>, compare: (K, K) -> bool, keys: seq<K>): map<K, Ptr<V>> {
    if keys == [] then m else MapDelete(MapDeleteAll(m, compare, keys[..|keys| - 1]), compare, keys[|keys| - 1])
  }

  lemma MapDeleteMore<K, V>(m: map<K, Ptr<V>>, compare: (K, K) -> bool, keys: seq<K>, more: seq<K>)
    ensures MapDeleteAll(MapDeleteAll(m, compare, keys), compare, more) == MapDeleteAll(m, compare, keys + more)
  {
    if more == [] {
      assert keys + more == keys;
    } else {
      MapDeleteMore(m, compare, keys, more[..|more| - 1]);
      assert (keys + more)[..|keys + more| - 1] == keys + more[..|more| - 1];
    }
  }

  /** Deleting keys one after another removes exactly the entries that compare equal to one of them. */
  lemma {:induction false} MapDeleteAllIs<K, V>(m: map<K, Ptr<V>>, compare: (K, K) -> bool, keys: seq<K>)
    ensures MapDeleteAll(m, compare, keys) == map k | k in m && (forall d :: d in keys ==> !compare(d, k)) :: m[k]
  {
    if keys != [] {
      var init := keys[..|keys| - 1];
      MapDeleteAllIs(m, compare, init);
      assert keys == init + [keys[|keys| - 1]];
    }
  }

  lemma LookupUnique<K(!new), V>(m: map<K, Ptr<V>>, compare: (K, K) -> bool, key: K, k: K)
    requires Equivalence(compare) && Apart(m, compare)
    requires k in m && compare(key, k)
    ensures MapLookup(m, compare, key) == m[k]
  {
    var k' :| k' in m && compare(key, k') && MapLookup(m, compare, key) == m[k'];
    Alike(compare, key, k', key);
    Alike(compare, k', key, k);
  }

  lemma DeleteLaws<K(!new), V>(m: map<K, Ptr<V>>, compare: (K, K) -> bool, key: K, other: K)
    requires Equivalence(compare) && Apart(m, compare)
    ensures Apart(MapDelete(m, compare, key), compare)
    ensures MapLookup(MapDelete(m, compare, key), compare, other)
         == if compare(key, other) then Null else MapLookup(m, compare, other)
  {
    var del := MapDelete(m, compare, key);
    if compare(key, other) {
      forall k | k in del ensures !compare(other, k) {
        Alike(compare, key, other, k);
      }
    } else if Has(m, compare, other) {
      var k :| k in m && compare(other, k);
      LookupUnique(m, compare, other, k);
      Alike(compare, k, other, k);
      Alike(compare, key, k, other);
      LookupUnique(del, compare, other, k);
    }
  }

  lemma DeleteSize<K(!new), V>(m: map<K, Ptr<V>>, compare: (K, K) -> bool, key: K)
    requires Equivalence(compare) && Apart(m, compare)
    ensures |MapDelete(m, compare, key)| == |m| - (if Has(m, compare, key) then 1 else 0)
  {
    var del := MapDelete(m, compare, key);
    if Has(m, compare, key) {
      var k :| k in m && compare(key, k);
      forall k' | k' in m && compare(key, k') ensures k' == k {
        Alike(compare, key, k', key);
        Alike(compare, k', key, k);
      }
      assert del.Keys == m.Keys - {k};
    } else {
      assert del == m;
    }
  }

  /** What a lookup answers, told of the bindings alone. */
  lemma LookupIs<K(!new), V>(m: map<K, Ptr<V>>, compare: (K, K) -> bool, key: K)
    requires Equivalence(compare) && Apart(m, compare)
    ensures forall k :: k in m && compare(key, k) ==> MapLookup(m, compare, key) == m[k]
    ensures (forall k :: k in m ==> !compare(key, k)) ==> MapLookup(m, compare, key) == Null
  {
    forall k | k in m && compare(key, k) ensures MapLookup(m, compare, key) == m[k] {
      LookupUnique(m, compare, key, k);
    }
  }

  /** Which bindings an insertion leaves: the new key, not the equal one it replaces, and all the others. */
  lemma InsertIs<K(!new), V>(m: map<K, Ptr<V>>, compare: (K, K) -> bool, key: K, value: Ptr<V>)
    ensures var m' := MapInsert(m, compare, key, value);
            && key in m' && m'[key] == value
            && (forall k :: k != key ==> (k in m' <==> k in m && !compare(key, k)))
            && forall k :: k in m' && k != key ==> m'[k] == m[k]
  {
  }

  lemma DeleteIs<K(!new), V>(m: map<K, Ptr<V>>, compare: (K, K) -> bool, key: K)
    ensures var m' := MapDelete(m, compare, key);
            && (forall k :: k in m' <==> k in m && !compare(key, k))
            && forall k :: k in m' ==> m'[k] == m[k]
  {
  }

  /** The operations are those of a finite map whose keys are the classes of compare. */
  lemma MapLaws<K(!new), V>(m: map<K, Ptr<V>>, compare: (K, K) -> bool, key: K, value: Ptr<V>, other: K)
    requires Equivalence(compare) && Apart(m, compare)
    ensures Apart(MapInsert(m, compare, key, value), compare)
    ensures MapLookup(MapInsert(m, compare, key, value), compare, other)
         == if compare(key, other) then value else MapLookup(m, compare, other)
    ensures |MapInsert(m, compare, key, value)| == |m| + (if Has(m, compare, key) then 0 else 1)
  {
    var del, ins := MapDelete(m, compare, key), MapInsert(m, compare, key, value);
    DeleteLaws(m, compare, key, other);
    DeleteSize(m, compare, key);
    Alike(compare, key, other, key);
    assert ins.Keys == del.Keys + {key};
    assert Apart(ins, compare) by {
      forall x, y | x in ins && y in ins && compare(x, y) ensures x == y {
        Alike(compare, x, y, x);
      }
    }
    if compare(key, other) {
      LookupUnique(ins, compare, other, key);
    } else if Has(del, compare, other) {
      var k :| k in del && compare(other, k);
      LookupUnique(del, compare, other, k);
      LookupUnique(ins, compare, other, k);
    } else {
      assert !Has(ins, compare, other);
    }
  }

  datatype Op<K, V> = Insert(key: K, value: Ptr<V>) | Lookup(key: K) | Delete(key: K)

  /** What an operation does to the map, and what it answers. */
  ghost function MapStep<K, V>(m: map<K, Ptr<V>>, compare: (K, K) -> bool, op: Op<K, V>): (map<K, Ptr<V>>, Ptr<V>) {
    match op
    case Insert(key, value) => (MapInsert(m, compare, key, value), MapLookup(m, compare, key))
    case Lookup(key) => (m, MapLookup(m, compare, key))
    case Delete(key) => (MapDelete(m, compare, key), MapLookup(m, compare, key))
  }

  ghost function MapRun<K, V>(m: map<K, Ptr<V>>, compare: (K, K) -> bool, ops: seq<Op<K, V>>)
    : (map<K, Ptr<V>>, seq<Ptr<V>>)
  {
    if ops == [] then (m, [])
    else
      var (before, results) := MapRun(m, compare, ops[..|ops| - 1]);
      var (after, result) := MapStep(before, compare, ops[|ops| - 1]);
      (after, results + [result])
  }

  ghost function MapAfter<K, V>(m: map<K, Ptr<V>>, compare: (K, K) -> bool, ops: seq<Op<K, V>>): map<K, Ptr<V>> {
    MapRun(m, compare, ops).0
  }

  lemma {:induction false} RunApart<K(!new), V>(m: map<K, Ptr<V>>, compare: (K, K) -> bool, ops: seq<Op<K, V>>)
    requires Equivalence(compare) && Apart(m, compare)
    ensures Apart(MapAfter(m, compare, ops), compare) && |MapRun(m, compare, ops).1| == |ops|
  {
    if ops != [] {
      var last := |ops| - 1;
      RunApart(m, compare, ops[..last]);
      var before := MapAfter(m, compare, ops[..last]);
      DeleteLaws(before, compare, ops[last].key, ops[last].key);
      if ops[last].Insert? {
        MapLaws(before, compare, ops[last].key, ops[last].value, ops[last].key);
      }
    }
  }

  /** The i-th answer of a run is a lookup in the map that the operations before it have left. */
  lemma {:induction false} AnswerIs<K(!new), V>(m: map<K, Ptr<V>>, compare: (K, K) -> bool, ops: seq<Op<K, V>>, i: nat)
    requires Equivalence(compare) && Apart(m, compare) && i < |ops|
    ensures |MapRun(m, compare, ops).1| == |ops|
    ensures MapRun(m, compare, ops).1[i] == MapLookup(MapAfter(m, compare, ops[..i]), compare, ops[i].key)
  {
    var last := |ops| - 1;
    RunApart(m, compare, ops[..last]);
    if i < last {
      AnswerIs(m, compare, ops[..last], i);
      assert ops[..last][..i] == ops[..i];
    }
  }

  /** What is found after one more operation. */
  lemma StepLookup<K(!new), V>(m: map<K, Ptr<V>>, compare: (K, K) -> bool, op: Op<K, V>, key: K)
    requires Equivalence(compare) && Apart(m, compare)
    ensures MapLookup(MapStep(m, compare, op).0, compare, key)
         == if op.Lookup? || !compare(op.key, key) then MapLookup(m, compare, key)
            else if op.Insert? then op.value else Null
  {
    match op
    case Insert(k, v) => MapLaws(m, compare, k, v, key);
    case Lookup(_) =>
    case Delete(k) => DeleteLaws(m, compare, k, key);
  }

  lemma {:induction false} LastWrite<K(!new), V>(m: map<K, Ptr<V>>, compare: (K, K) -> bool, ops: seq<Op<K, V>>, key: K)
    returns (j: int)
    requires Equivalence(compare) && Apart(m, compare)
    ensures -1 <= j < |ops|
    ensures forall l :: j < l < |ops| ==> ops[l].Lookup? || !compare(ops[l].key, key)
    ensures j >= 0 ==> !ops[j].Lookup? && compare(ops[j].key, key)
    ensures MapLookup(MapAfter(m, compare, ops), compare, key)
         == if j < 0 then MapLookup(m, compare, key) else if ops[j].Insert? then ops[j].value else Null
  {
    if ops == [] {
      j := -1;
    } else {
      var last := |ops| - 1;
      RunApart(m, compare, ops[..last]);
      StepLookup(MapAfter(m, compare, ops[..last]), compare, ops[last], key);
      if ops[last].Lookup? || !compare(ops[last].key, key) {
        j := LastWrite(m, compare, ops[..last], key);
        forall l | j < l < |ops| ensures ops[l].Lookup? || !compare(ops[l].key, key) {
          assert l < last ==> ops[..last][l] == ops[l];
        }
      } else {
        j := last;
      }
    }
  }

  /**
   What the i-th operation of a run answers, told of the operations alone: the value that the last insertion of an equal
   key before it has put there, NULL if a deletion came later, and what the map held if there was neither.
   */
  lemma RunAnswers<K(!new), V>(m: map<K, Ptr<V>>, compare: (K, K) -> bool, ops: seq<Op<K, V>>, i: nat) returns (j: int)
    requires Equivalence(compare) && Apart(m, compare) && i < |ops|
    ensures -1 <= j < i && |MapRun(m, compare, ops).1| == |ops|
    ensures forall l :: j < l < i ==> ops[l].Lookup? || !compare(ops[l].key, ops[i].key)
    ensures j >= 0 ==> !ops[j].Lookup? && compare(ops[j].key, ops[i].key)
    ensures j >= 0 ==> MapRun(m, compare, ops).1[i] == if ops[j].Insert? then ops[j].value else Null
    ensures j < 0 ==> forall k :: k in m && compare(ops[i].key, k) ==> MapRun(m, compare, ops).1[i] == m[k]
    ensures j < 0 && (forall k :: k in m ==> !compare(ops[i].key, k)) ==> MapRun(m, compare, ops).1[i] == Null
  {
    AnswerIs(m, compare, ops, i);
    j := LastWrite(m, compare, ops[..i], ops[i].key);
    LookupIs(m, compare, ops[i].key);
  }

  // ---------- bucket contents ----------

  /** The position of the first entry of the chain whose key compares equal to key; the chain's length if none does. */
  ghost function FindPos<K, V>(compare: (K, K) -> bool, chain: Chain<K, V>, key: K): (p: nat)
    ensures p <= |chain|
    ensures p < |chain| ==> compare(key, chain[p].key)
    ensures forall j {:trigger Same(compare, key, chain[j].key)} :: 0 <= j < p ==> !Same(compare, key, chain[j].key)
  {
    if chain == [] || compare(key, chain[0].key) then 0 else 1 + FindPos(compare, chain[1..], key)
  }

  lemma FoundBy<K, V>(compare: (K, K) -> bool, chain: Chain<K, V>, key: K, j: nat)
    requires j < |chain| && compare(key, chain[j].key)
    ensures FindPos(compare, chain, key) <= j
  {
    assert Same(compare, key, chain[j].key);
  }

  ghost predicate NoRepeat<K, V>(compare: (K, K) -> bool, chain: Chain<K, V>) {
    forall j, k {:trigger Same(compare, chain[j].key, chain[k].key)} ::
      0 <= j < k < |chain| ==> !Same(compare, chain[j].key, chain[k].key)
  }

  ghost predicate WellFormed<K, V>(compare: (K, K) -> bool, slot: K -> nat, entries: seq<Chain<K, V>>) {
    && (forall i, j :: 0 <= i < |entries| && 0 <= j < |entries[i]| ==> slot(entries[i][j].key) == i)
    && (forall i :: 0 <= i < |entries| ==> NoRepeat(compare, entries[i]))
  }

  ghost function Keys<K, V>(entries: seq<Chain<K, V>>): set<K> {
    set i, j | 0 <= i < |entries| && 0 <= j < |entries[i]| :: entries[i][j].key
  }

  ghost function Without<K, V>(compare: (K, K) -> bool, slot: K -> nat, entries: seq<Chain<K, V>>, key: K)
    : seq<Chain<K, V>>
    requires slot(key) < |entries|
  {
    var i := slot(key);
    var p := FindPos(compare, entries[i], key);
    if p < |entries[i]| then entries[i := RemoveAt(entries[i], p)] else entries
  }

  ghost function With<K, V>(slot: K -> nat, entries: seq<Chain<K, V>>, e: HashEntry<K, V>): seq<Chain<K, V>>
    requires slot(e.key) < |entries|
  {
    var i := slot(e.key);
    entries[i := [e] + entries[i]]
  }

  /** The map the bucket contents stand for. */
  ghost function AbsMap<K(!new), V>(compare: (K, K) -> bool, slot: K -> nat, entries: seq<Chain<K, V>>): map<K, Ptr<V>>
    requires Slotting(compare, slot, |entries|) && WellFormed(compare, slot, entries)
  {
    map k | k in Keys(entries) ::
      Alike(compare, k, k, k);
      AlikeSlots(compare, slot, |entries|, k, k);
      var i := slot(k);
      assert exists j :: 0 <= j < |entries[i]| && entries[i][j].key == k && FindPos(compare, entries[i], k) <= j by {
        var j :| 0 <= j < |entries[i]| && entries[i][j].key == k;
        FoundBy(compare, entries[i], k, j);
      }
      entries[i][FindPos(compare, entries[i], k)].value
  }

  lemma AbsMapAt<K(!new), V>(compare: (K, K) -> bool, slot: K -> nat, entries: seq<Chain<K, V>>, i: nat, j: nat)
    requires Slotting(compare, slot, |entries|) && WellFormed(compare, slot, entries)
    requires i < |entries| && j < |entries[i]|
    ensures var e := entries[i][j]; e.key in Keys(entries) && AbsMap(compare, slot, entries)[e.key] == e.value
  {
    assert slot(entries[i][j].key) == i;
    Alike(compare, entries[i][j].key, entries[i][j].key, entries[i][j].key);
    NotTheFound(compare, slot, entries, entries[i][j].key, i, j);
  }

  lemma AbsMapApart<K(!new), V>(compare: (K, K) -> bool, slot: K -> nat, entries: seq<Chain<K, V>>)
    requires Slotting(compare, slot, |entries|) && WellFormed(compare, slot, entries)
    ensures Apart(AbsMap(compare, slot, entries), compare)
  {
    forall x, y | x in Keys(entries) && y in Keys(entries) && compare(x, y) ensures x == y {
      var i, j :| 0 <= i < |entries| && 0 <= j < |entries[i]| && entries[i][j].key == x;
      var i', j' :| 0 <= i' < |entries| && 0 <= j' < |entries[i']| && entries[i'][j'].key == y;
      AlikeSlots(compare, slot, |entries|, x, y);
      Alike(compare, x, y, x);
      assert Same(compare, entries[i][j].key, entries[i][j'].key)
              && Same(compare, entries[i][j'].key, entries[i][j].key);
    }
  }

  /** Searching one bucket is looking the key up in the map. */
  lemma FindRefinesLookup<K(!new), V>(compare: (K, K) -> bool, slot: K -> nat, entries: seq<Chain<K, V>>, key: K)
    requires Slotting(compare, slot, |entries|) && WellFormed(compare, slot, entries)
    ensures var i := slot(key);
            var p := FindPos(compare, entries[i], key);
            var m := AbsMap(compare, slot, entries);
            && (Has(m, compare, key) <==> p < |entries[i]|)
            && MapLookup(m, compare, key) == if p < |entries[i]| then entries[i][p].value else Null
  {
    var i := slot(key);
    var p := FindPos(compare, entries[i], key);
    var m := AbsMap(compare, slot, entries);
    if p < |entries[i]| {
      AbsMapAt(compare, slot, entries, i, p);
      AbsMapApart(compare, slot, entries);
      LookupUnique(m, compare, key, entries[i][p].key);
    } else {
      forall k | k in m ensures !compare(key, k) {
        var a, b :| 0 <= a < |entries| && 0 <= b < |entries[a]| && entries[a][b].key == k;
        AlikeSlots(compare, slot, |entries|, key, k);
        if compare(key, k) {
          FoundBy(compare, entries[a], key, b);
        }
      }
    }
  }

  ghost predicate Stored<K, V>(entries: seq<Chain<K, V>>, e: HashEntry<K, V>) {
    exists i :: 0 <= i < |entries| && e in entries[i]
  }

  /** The map holds exactly the stored entries, so stored entries determine it. */
  lemma StoredIsMapped<K(!new), V>(compare: (K, K) -> bool, slot: K -> nat, entries: seq<Chain<K, V>>,
                                   e: HashEntry<K, V>)
    requires Slotting(compare, slot, |entries|) && WellFormed(compare, slot, entries)
    requires Stored(entries, e)
    ensures var m := AbsMap(compare, slot, entries); e.key in m && m[e.key] == e.value
  {
    var i :| 0 <= i < |entries| && e in entries[i];
    var j :| 0 <= j < |entries[i]| && entries[i][j] == e;
    AbsMapAt(compare, slot, entries, i, j);
  }

  lemma MappedIsStored<K(!new), V>(compare: (K, K) -> bool, slot: K -> nat, entries: seq<Chain<K, V>>, k: K)
    returns (e: HashEntry<K, V>)
    requires Slotting(compare, slot, |entries|) && WellFormed(compare, slot, entries)
    requires k in AbsMap(compare, slot, entries)
    ensures Stored(entries, e) && e.key == k
  {
    var i, j :| 0 <= i < |entries| && 0 <= j < |entries[i]| && entries[i][j].key == k;
    e := entries[i][j];
  }

  lemma WithoutStored<K(!new), V>(compare: (K, K) -> bool, slot: K -> nat, entries: seq<Chain<K, V>>, key: K,
                                  e: HashEntry<K, V>)
    requires Slotting(compare, slot, |entries|) && WellFormed(compare, slot, entries)
    ensures Stored(Without(compare, slot, entries, key), e) <==> Stored(entries, e) && !compare(key, e.key)
  {
    var i := slot(key);
    var p := FindPos(compare, entries[i], key);
    var after := Without(compare, slot, entries, key);
    forall a | 0 <= a < |entries| ensures e in after[a] <==> e in entries[a] && !compare(key, e.key) {
      forall b | 0 <= b < |entries[a]| && compare(key, entries[a][b].key) ensures a == i && b == p {
        NotTheFound(compare, slot, entries, key, a, b);
      }
      if a == i && p < |entries[i]| {
        RemoveAtMembers(entries[i], p, e);
      }
    }
  }

  lemma RemoveAtMembers<A>(s: seq<A>, p: nat, x: A)
    requires p < |s|
    ensures x in RemoveAt(s, p) <==> exists b :: 0 <= b < |s| && b != p && s[b] == x
  {
    if b :| 0 <= b < |s| && b != p && s[b] == x {
      assert RemoveAt(s, p)[if b < p then b else b - 1] == x;
    }
  }

  lemma NotTheFound<K(!new), V>(compare: (K, K) -> bool, slot: K -> nat, entries: seq<Chain<K, V>>, key: K, a: nat,
                                b: nat)
    requires Slotting(compare, slot, |entries|) && WellFormed(compare, slot, entries)
    requires a < |entries| && b < |entries[a]| && compare(key, entries[a][b].key)
    ensures a == slot(key) && b == FindPos(compare, entries[a], key)
  {
    var p := FindPos(compare, entries[a], key);
    AlikeSlots(compare, slot, |entries|, key, entries[a][b].key);
    FoundBy(compare, entries[a], key, b);
    Alike(compare, key, entries[a][p].key, key);
    Alike(compare, entries[a][p].key, key, entries[a][b].key);
    assert Same(compare, entries[a][p].key, entries[a][b].key);
  }

  lemma WithoutWellFormed<K, V>(compare: (K, K) -> bool, slot: K -> nat, entries: seq<Chain<K, V>>, key: K)
    requires WellFormed(compare, slot, entries) && slot(key) < |entries|
    ensures WellFormed(compare, slot, Without(compare, slot, entries, key))
  {
  }

  lemma WithoutRefinesDelete<K(!new), V>(compare: (K, K) -> bool, slot: K -> nat, entries: seq<Chain<K, V>>, key: K)
    requires Slotting(compare, slot, |entries|) && WellFormed(compare, slot, entries)
    ensures WellFormed(compare, slot, Without(compare, slot, entries, key))
    ensures AbsMap(compare, slot, Without(compare, slot, entries, key))
         == MapDelete(AbsMap(compare, slot, entries), compare, key)
  {
    var after := Without(compare, slot, entries, key);
    WithoutWellFormed(compare, slot, entries, key);
    var m, m' := AbsMap(compare, slot, entries), AbsMap(compare, slot, after);
    forall k | k in m && !compare(key, k) ensures k in m' && m'[k] == m[k] {
      var e := MappedIsStored(compare, slot, entries, k);
      WithoutStored(compare, slot, entries, key, e);
      StoredIsMapped(compare, slot, entries, e);
      StoredIsMapped(compare, slot, after, e);
    }
    forall k | k in m' ensures k in m && !compare(key, k) {
      var e := MappedIsStored(compare, slot, after, k);
      WithoutStored(compare, slot, entries, key, e);
      StoredIsMapped(compare, slot, entries, e);
    }
  }

  lemma WithStored<K, V>(slot: K -> nat, entries: seq<Chain<K, V>>, e: HashEntry<K, V>, x: HashEntry<K, V>)
    requires slot(e.key) < |entries|
    ensures Stored(With(slot, entries, e), x) <==> x == e || Stored(entries, x)
  {
    var i := slot(e.key);
    var after := With(slot, entries, e);
    assert e in after[i];
    if Stored(entries, x) {
      var a :| 0 <= a < |entries| && x in entries[a];
      assert x in after[a];
    }
  }

  lemma WithWellFormed<K(!new), V>(compare: (K, K) -> bool, slot: K -> nat, entries: seq<Chain<K, V>>,
                                   e: HashEntry<K, V>)
    requires Slotting(compare, slot, |entries|) && WellFormed(compare, slot, entries)
    requires !Has(AbsMap(compare, slot, entries), compare, e.key)
    ensures WellFormed(compare, slot, With(slot, entries, e))
  {
    FindRefinesLookup(compare, slot, entries, e.key);
  }

  lemma WithRefinesInsert<K(!new), V>(compare: (K, K) -> bool, slot: K -> nat, entries: seq<Chain<K, V>>,
                                      e: HashEntry<K, V>)
    requires Slotting(compare, slot, |entries|) && WellFormed(compare, slot, entries)
    requires !Has(AbsMap(compare, slot, entries), compare, e.key)
    ensures WellFormed(compare, slot, With(slot, entries, e))
    ensures AbsMap(compare, slot, With(slot, entries, e)) == AbsMap(compare, slot, entries)[e.key := e.value]
  {
    var after := With(slot, entries, e);
    WithWellFormed(compare, slot, entries, e);
    var m, m' := AbsMap(compare, slot, entries), AbsMap(compare, slot, after);
    WithStored(slot, entries, e, e);
    StoredIsMapped(compare, slot, after, e);
    forall k | k in m ensures k in m' && k != e.key && m'[k] == m[k] {
      Alike(compare, e.key, e.key, e.key);
      var x := MappedIsStored(compare, slot, entries, k);
      WithStored(slot, entries, e, x);
      StoredIsMapped(compare, slot, entries, x);
      StoredIsMapped(compare, slot, after, x);
    }
    forall k | k in m' ensures k == e.key || k in m {
      var x := MappedIsStored(compare, slot, after, k);
      WithStored(slot, entries, e, x);
      if x != e {
        StoredIsMapped(compare, slot, entries, x);
      }
    }
  }
}
