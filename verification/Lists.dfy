/**
  The singly linked lists of core/src/list.c: a head, a tail and items that hold one pointer.

  The ghost fields describe a well-formed list: `spine` has the items in order, `contents` the
  pointers they hold, and `nodes` all items the list has ever had.  `Valid` ties them to the
  links.  Freed items are items that have left the spine.
 */
module Lists {

  class Item<T> {
    var p: T
    var next: Item?<T>

    constructor (p: T)
      ensures this.p == p && this.next == null
    {
      this.p := p;
      this.next := null;
    }
  }

  ghost function Without<T>(s: seq<T>, k: nat): seq<T>
    requires k < |s|
  {
    s[..k] + s[k + 1..]
  }

  class List<T> {
    var head: Item?<T>
    var tail: Item?<T>
    ghost var spine: seq<Item<T>>
    ghost var contents: seq<T>
    ghost var nodes: set<Item<T>>

    ghost predicate Valid()
      reads this, nodes
    {
      && (forall i :: 0 <= i < |spine| ==> spine[i] in nodes)
      && (|spine| == 0 ==> head == null && tail == null)
      && (|spine| > 0 ==> head == spine[0] && tail == spine[|spine| - 1] && tail.next == null)
      && (forall i {:trigger spine[i].next} :: 0 <= i < |spine| - 1 ==> spine[i].next == spine[i + 1])
      && (forall i, j :: 0 <= i < j < |spine| ==> spine[i] != spine[j])
      && |contents| == |spine|
      && (forall i {:trigger spine[i].p} {:trigger contents[i]} :: 0 <= i < |spine| ==> spine[i].p == contents[i])
    }

    /** What list_ringadd makes of a one-item list: a walk from the head sees nothing,
        yet the tail is set. */
    ghost predicate Lost()
      reads this
    {
      head == null && tail != null && tail in nodes
    }

    /** The item at position k, null past the end. */
    ghost function At(k: nat): Item?<T>
      reads this
    {
      if k < |spine| then spine[k] else null
    }

    lemma NextIs(k: nat)
      requires Valid() && k < |spine|
      ensures |contents| == |spine| && spine[k].next == At(k + 1) && spine[k].p == contents[k]
    {
    }

    lemma HeadIs()
      requires Valid()
      ensures head == At(0)
    {
    }

    lemma EndIs(k: nat)
      requires Valid() && k <= |contents| && At(k) == null
      ensures k == |contents|
    {
    }

    constructor ()
      ensures Valid() && contents == [] && spine == [] && nodes == {}
    {
      head, tail, spine, contents, nodes := null, null, [], [], {};
    }

    /** list_init */
    method Init()
      modifies this
      ensures Valid() && contents == [] && nodes == old(nodes)
    {
      head, tail := null, null;
      spine, contents := [], [];
    }

    /** list_add */
    method Add(x: T)
      requires Valid() || Lost()
      modifies this, nodes
      ensures fresh(nodes - old(nodes)) && old(nodes) <= nodes
      ensures old(Valid()) ==> Valid() && contents == old(contents) + [x]
      ensures old(Valid()) ==> |spine| == old(|spine|) + 1 && spine[..old(|spine|)] == old(spine)
      ensures old(Lost()) ==> Lost()
    {
      var n := new Item(x);
      if tail != null {
        tail.next := n;
        tail := n;
      } else {
        head, tail := n, n;
      }
      spine, contents, nodes := spine + [n], contents + [x], nodes + {n};
    }

    /** list_ringadd, for a list whose head is not null. */
    method RingAdd(x: T)
      requires Valid() && |spine| > 0
      modifies this, nodes
      ensures fresh(nodes - old(nodes)) && old(nodes) <= nodes
      ensures old(|spine|) >= 2 ==> Valid() && contents == old(contents)[1..] + [x]
      ensures old(|spine|) == 1 ==> Lost()
    {
      ghost var one := |spine| == 1;
      head := head.next;
      spine, contents := spine[1..], contents[1..];
      assert !one ==> Valid();
      assert one ==> Lost();
      Add(x);
    }

    /** Stores another pointer in the item at position k. */
    method Store(i: Item<T>, x: T, ghost k: nat)
      requires Valid() && k < |spine| && i == spine[k]
      modifies this`contents, i`p
      ensures Valid() && contents == old(contents)[k := x]
    {
      i.p := x;
      contents := contents[k := x];
    }

    /** list_del, of the item at position k, given the item before it. */
    method Del(prev: Item?<T>, curr: Item<T>, ghost k: nat)
      requires Valid() && k < |spine| && curr == spine[k]
      requires prev == if k == 0 then null else spine[k - 1]
      modifies this, nodes
      ensures Valid() && spine == Without(old(spine), k) && nodes == old(nodes)
      ensures contents == Without(old(contents), k)
      ensures curr.next == old(curr.next)
    {
      if prev != null {
        prev.next := curr.next;
      }
      if tail == curr {
        tail := prev;
      }
      if head == curr {
        head := curr.next;
      }
      spine, contents := Without(spine, k), Without(contents, k);
    }
  }
}
