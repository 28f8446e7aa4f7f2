/** The recycling container the pool manager drives. Its implementation is
    not part of this model; this is the least that the manager relies on: a
    list of free instances, the number of instances ever created, and (ghost)
    the instances currently handed out. No reuse order is assumed. */
module Pooling {

  /** A Unity GameObject, used only for its identity: prefabs (templates) and
      the clones instantiated from them. */
  class GameObject {
    constructor () {}
  }

  ghost predicate Distinct<T>(s: seq<T>)
  {
    forall i, j :: 0 <= i < j < |s| ==> s[i] != s[j]
  }

  class ObjectPool {
    var free: seq<GameObject>
    var created: nat
    ghost var inUse: set<GameObject>

    /** Every instance created is either free (listed once) or in use. */
    ghost predicate Valid()
      reads this
    {
      && Distinct(free)
      && (forall i :: 0 <= i < |free| ==> free[i] !in inUse)
      && created == |free| + |inUse|
    }

    /** A pool warmed with `size` instances, all new and all free. */
    constructor (size: int)
      ensures Valid() && inUse == {}
      ensures created == |free| == (if size < 0 then 0 else size)
      ensures forall i :: 0 <= i < |free| ==> fresh(free[i])
    {
      var items: seq<GameObject> := [];
      while |items| < size
        invariant Distinct(items)
        invariant forall i :: 0 <= i < |items| ==> fresh(items[i])
        invariant size < 0 ==> items == []
        invariant size >= 0 ==> |items| <= size
        decreases size - |items|
      {
        var item := new GameObject();
        items := items + [item];
      }
      free := items;
      created := |items|;
      inUse := {};
    }

    /** Count: the instances this pool has created. */
    function Count(): (r: int)
      reads this
      ensures Valid() ==> r == |free| + |inUse|
    {
      created
    }

    /** CountUsedItems: the instances handed out and not yet returned. */
    function CountUsedItems(): (r: int)
      reads this
      ensures Valid() ==> r == |inUse| && r <= Count()
    {
      created - |free|
    }

    /** Hands out some free instance (which one is left open), or a new one
        when none is free. */
    method GetItem() returns (item: GameObject)
      requires Valid()
      modifies this
      ensures Valid()
      ensures inUse == old(inUse) + {item} && item !in old(inUse)
      ensures old(free) != [] ==>
        && item in old(free) && created == old(created)
        && multiset(free) + multiset{item} == multiset(old(free))
      ensures old(free) == [] ==> fresh(item) && created == old(created) + 1 && free == []
      ensures forall x :: x in free ==> x in old(free)
    {
      if free == [] {
        item := new GameObject();
        created := created + 1;
      } else {
        var k :| 0 <= k < |free|;
        item := free[k];
        assert free == free[..k] + [item] + free[k + 1..];
        assert forall x :: x in free[..k] + free[k + 1..] ==> x in free;
        free := free[..k] + free[k + 1..];
      }
      inUse := inUse + {item};
    }

    /** Puts the instance back on the free list. The pool does not check that
        it was handed out; when it was, the pool stays consistent. */
    method ReleaseItem(item: GameObject)
      modifies this
      ensures free == old(free) + [item] && created == old(created)
      ensures inUse == old(inUse) - {item}
      ensures old(Valid()) && item in old(inUse) ==> Valid()
    {
      free := free + [item];
      inUse := inUse - {item};
    }
  }
}
