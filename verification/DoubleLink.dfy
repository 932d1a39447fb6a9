/**
 The doubly linked list of lib/cc_double_link.c.

 A list is a chain of heap elements and every operation is handed one of its elements, never a list object. The ghost
 argument s lists the elements of the chain in order and i is the position of the element that was handed in.
 free() is the end of an element's life: it may happen only once, and every element of a linked chain is alive.
 Methods read and write fields of an element only through its methods and functions, which demand that it is alive.
 */
module DoubleLink {
  import opened Pointers

  class Element<T> {
    var data: Ptr<T>
    var prev: Element?<T>
    var next: Element?<T>
    ghost var live: bool  // allocated and not yet freed
    ghost var list: nat   // the number of the chain it was put into

    constructor (ghost list: nat)
      ensures data == Null && prev == null && next == null
      ensures live && this.list == list
    {
      data, prev, next := Null, null, null;
      live, this.list := true, list;
    }

    method Free()
      requires live
      modifies this`live
      ensures !live
    {
      live := false;
    }

    function Data(): Ptr<T>
      requires live
      reads this
    {
      data
    }

    function Prev(): Element?<T>
      requires live
      reads this
    {
      prev
    }

    function Next(): Element?<T>
      requires live
      reads this
    {
      next
    }

    method SetData(data: Ptr<T>)
      requires live
      modifies this`data
      ensures this.data == data
    {
      this.data := data;
    }

    method SetPrev(prev: Element?<T>)
      requires live
      modifies this`prev
      ensures this.prev == prev
    {
      this.prev := prev;
    }

    method SetNext(next: Element?<T>)
      requires live
      modifies this`next
      ensures this.next == next
    {
      this.next := next;
    }
  }

  ghost function InsertAt<A>(s: seq<A>, i: nat, x: A): seq<A>
    requires i <= |s|
  {
    s[..i] + [x] + s[i..]
  }

  ghost function RemoveAt<A>(s: seq<A>, i: nat): seq<A>
    requires i < |s|
  {
    s[..i] + s[i + 1..]
  }

  lemma InsertAtIs<A>(s: seq<A>, i: nat, x: A)
    requires i <= |s|
    ensures var r := InsertAt(s, i, x); r[..i] == s[..i] && r[i] == x && r[i + 1..] == s[i..]
  {
  }

  lemma RemoveAtIs<A>(s: seq<A>, i: nat)
    requires i < |s|
    ensures var r := RemoveAt(s, i); r[..i] == s[..i] && r[i..] == s[i + 1..]
  {
  }

  ghost predicate Distinct<A>(s: seq<A>) {
    forall j, k :: 0 <= j < k < |s| ==> s[j] != s[k]
  }

  /** s is a whole chain: prev and next are each other's mirror and both ends are NULL. */
  ghost predicate Linked<T>(s: seq<Element<T>>)
    reads s
  {
    && (forall k :: 0 <= k < |s| ==> s[k].live)
    && (forall k {:trigger s[k].prev} :: 0 <= k < |s| ==> s[k].prev == if k == 0 then null else s[k - 1])
    && (forall k {:trigger s[k].next} :: 0 <= k < |s| ==> s[k].next == if k == |s| - 1 then null else s[k + 1])
  }

  /** A chain is acyclic: walking prev from a repeated element would reach NULL too early. */
  lemma LinkedDistinct<T>(s: seq<Element<T>>)
    requires Linked(s)
    ensures Distinct(s)
  {
    forall j, k | 0 <= j < k < |s| ensures s[j] != s[k] {
      NotRepeated(s, j, k);
    }
  }

  lemma {:induction false} NotRepeated<T>(s: seq<Element<T>>, j: nat, k: nat)
    requires Linked(s) && j < k < |s|
    ensures s[j] != s[k]
  {
    if s[j] == s[k] {
      assert s[j].prev == s[k].prev;
      if j > 0 {
        NotRepeated(s, j - 1, k - 1);
      }
    }
  }

  method CreateDlist<T>(ghost list: nat) returns (element: Element<T>)
    ensures fresh(element) && element.data == Null && element.list == list
    ensures Linked([element])
  {
    element := new Element(list);
  }

  /** A new element x between the neighbours at p - 1 and p, which point at it. */
  twostate lemma ChainInserted<T>(s: seq<Element<T>>, new p: nat, new x: Element<T>)
    requires old(Linked(s)) && p <= |s|
    requires x.live && x.prev == (if p == 0 then null else s[p - 1]) && x.next == if p == |s| then null else s[p]
    requires forall k {:trigger s[k].live} :: 0 <= k < |s| ==> s[k].live
    requires forall k {:trigger s[k].prev} :: 0 <= k < |s| ==> s[k].prev == if k == p then x else old(s[k].prev)
    requires forall k {:trigger s[k].next} :: 0 <= k < |s| ==> s[k].next == if k + 1 == p then x else old(s[k].next)
    ensures Linked(InsertAt(s, p, x))
  {
    var t := InsertAt(s, p, x);
    forall k | 0 <= k < |t|
      ensures t[k].live && t[k].prev == (if k == 0 then null else t[k - 1])
      ensures t[k].next == if k == |t| - 1 then null else t[k + 1]
    {
      if k < p {
        assert t[k] == s[k];
      } else if k > p {
        assert t[k] == s[k - 1];
      }
    }
  }

  method InsertBefore<T>(element: Element<T>, data: Ptr<T>, ghost s: seq<Element<T>>, ghost i: nat)
    returns (newPrev: Element<T>)
    requires Linked(s) && i < |s| && s[i] == element
    modifies s`prev, s`next
    ensures fresh(newPrev) && newPrev.data == data && newPrev.list == element.list
    ensures Linked(InsertAt(s, i, newPrev))
  {
    LinkedDistinct(s);
    newPrev := new Element(element.list);
    if element.Prev() != null {
      var oldPrev := element.Prev();
      newPrev.SetPrev(oldPrev);
      oldPrev.SetNext(newPrev);
    }
    element.SetPrev(newPrev);
    newPrev.SetNext(element);
    newPrev.SetData(data);
    ChainInserted(s, i, newPrev);
  }

  method InsertAfter<T>(element: Element<T>, data: Ptr<T>, ghost s: seq<Element<T>>, ghost i: nat)
    returns (newNext: Element<T>)
    requires Linked(s) && i < |s| && s[i] == element
    modifies s`prev, s`next
    ensures fresh(newNext) && newNext.data == data && newNext.list == element.list
    ensures Linked(InsertAt(s, i + 1, newNext))
  {
    LinkedDistinct(s);
    newNext := new Element(element.list);
    if element.Next() != null {
      var oldNext := element.Next();
      newNext.SetNext(oldNext);
      oldNext.SetPrev(newNext);
    }
    element.SetNext(newNext);
    newNext.SetPrev(element);
    newNext.SetData(data);
    ChainInserted(s, i + 1, newNext);
  }

  method GetFirstElement<T>(element: Element<T>, ghost s: seq<Element<T>>, ghost i: nat)
    returns (first: Element<T>)
    requires Linked(s) && i < |s| && s[i] == element
    ensures first == s[0]
  {
    first := element;
    ghost var at: nat := i;
    while first.Prev() != null
      invariant at < |s| && first == s[at]
      decreases at
    {
      first, at := first.Prev(), at - 1;
    }
  }

  method GetLastElement<T>(element: Element<T>, ghost s: seq<Element<T>>, ghost i: nat)
    returns (last: Element<T>)
    requires Linked(s) && i < |s| && s[i] == element
    ensures last == s[|s| - 1]
  {
    last := element;
    ghost var at: nat := i;
    while last.Next() != null
      invariant at < |s| && last == s[at]
      decreases |s| - at
    {
      last, at := last.Next(), at + 1;
    }
  }

  /** The nearest match at or after the element; failing that the nearest before it; failing that NULL. */
  method FindElement<T(==)>(element: Element<T>, data: Ptr<T>, ghost s: seq<Element<T>>, ghost i: nat)
    returns (found: Element?<T>)
    requires Linked(s) && i < |s| && s[i] == element
    ensures found == null <==> forall k :: 0 <= k < |s| ==> s[k].data != data
    ensures found != null ==>
              found.data == data &&
              exists k :: 0 <= k < |s| && s[k] == found &&
                if i <= k then forall m :: i <= m < k ==> s[m].data != data
                else forall m :: k < m < |s| ==> s[m].data != data
  {
    var e: Element? := element;
    ghost var at: int := i;
    while e != null
      invariant i <= at <= |s| && e == if at == |s| then null else s[at]
      invariant forall m :: i <= m < at ==> s[m].data != data
      decreases |s| - at
    {
      if e.Data() == data {
        return e;
      }
      e, at := e.Next(), at + 1;
    }
    e, at := element.Prev(), i - 1;
    while e != null
      invariant -1 <= at < i && e == if at == -1 then null else s[at]
      invariant forall m :: at < m < |s| ==> s[m].data != data
      decreases at + 1
    {
      if e.Data() == data {
        return e;
      }
      e, at := e.Prev(), at - 1;
    }
    found := null;
  }

  /** Takes the element out of its chain and frees it. */
  method DeleteDlistElement<T>(element: Element<T>, ghost s: seq<Element<T>>, ghost i: nat)
    requires Linked(s) && i < |s| && s[i] == element
    modifies element`live, s`prev, s`next
    ensures Linked(RemoveAt(s, i)) && !element.live
  {
    LinkedDistinct(s);
    if element.Prev() != null {
      element.Prev().SetNext(element.Next());
    }
    if element.Next() != null {
      element.Next().SetPrev(element.Prev());
    }
    element.Free();
  }

  /** Frees every element of the chain, whichever of them it is handed. */
  method DeleteDlist<T>(element: Element<T>, ghost s: seq<Element<T>>, ghost i: nat)
    requires Linked(s) && i < |s| && s[i] == element
    modifies s`live
    ensures forall k :: 0 <= k < |s| ==> !s[k].live
  {
    LinkedDistinct(s);
    var e: Element? := GetFirstElement(element, s, i);
    ghost var at := 0;
    while e != null
      invariant 0 <= at <= |s| && e == if at == |s| then null else s[at]
      invariant forall k :: 0 <= k < |s| ==> s[k].live == (at <= k)
      decreases |s| - at
    {
      var deleteMe := e;
      e, at := e.Next(), at + 1;
      deleteMe.Free();
    }
  }
}
