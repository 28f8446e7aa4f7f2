/** The pool manager: one pool per prefab, and a record of which pool every
    live clone came from so that a release needs only the clone. */
module PoolManagement {
  import opened Pooling
  import opened Wrappers

  /** The exception warmPool throws for a prefab that already has a pool. */
  datatype PoolError = PoolAlreadyCreated(prefab: GameObject)

  /** One line of PrintStatus: instances in use and created, for one prefab. */
  datatype PoolStatus = PoolStatus(inUse: int, total: int)

  class PoolManager {
    // Inspector settings.
    var logStatus: bool
    var listPrefab: seq<GameObject>
    var initSize: int

    var prefabLookup: map<GameObject, ObjectPool>
    var instanceLookup: map<GameObject, ObjectPool>
    var dirty: bool

    /** Whether Awake has created the two dictionaries; before that both are
        null and every use of them throws. */
    var lookupsCreated: bool

    /** The pool every instance created so far belongs to. */
    ghost var owner: map<GameObject, ObjectPool>

    /** The lookups exist; one pool per prefab; a clone is tracked exactly while
        its pool has it in use, and a free instance is untracked and listed by
        its own pool only. */
    ghost predicate Valid()
      reads this`lookupsCreated, this`prefabLookup, this`instanceLookup, this`owner, prefabLookup.Values
    {
      && lookupsCreated
      && OnePoolPerPrefab()
      && (forall p :: p in prefabLookup.Values ==> p.Valid())
      && TrackedInUse()
      && InUseTracked()
      && FreeUntracked()
    }

    ghost predicate OnePoolPerPrefab()
      reads this`prefabLookup
    {
      forall t, u :: t in prefabLookup && u in prefabLookup && t != u ==> prefabLookup[t] != prefabLookup[u]
    }

    ghost predicate TrackedInUse()
      reads this`prefabLookup, this`instanceLookup, this`owner, prefabLookup.Values
    {
      forall x :: x in instanceLookup ==>
        && instanceLookup[x] in prefabLookup.Values
        && x in instanceLookup[x].inUse && x in owner && owner[x] == instanceLookup[x]
    }

    ghost predicate InUseTracked()
      reads this`prefabLookup, this`instanceLookup, this`owner, prefabLookup.Values
    {
      forall p, x :: p in prefabLookup.Values && x in p.inUse ==> x in instanceLookup && instanceLookup[x] == p
    }

    ghost predicate FreeUntracked()
      reads this`prefabLookup, this`instanceLookup, this`owner, prefabLookup.Values
    {
      forall p, i :: p in prefabLookup.Values && 0 <= i < |p.free| ==>
        p.free[i] in owner && owner[p.free[i]] == p && p.free[i] !in instanceLookup
    }

    /** The clones currently recorded as drawn from pool p. */
    ghost function TrackedBy(p: ObjectPool): set<GameObject>
      reads this`instanceLookup
    {
      set x | x in instanceLookup && instanceLookup[x] == p
    }

    /** What PrintStatus logs: CountUsedItems and Count of every prefab's pool.
        Its foreach needs the lookup that Awake creates. */
    function Status(): (r: map<GameObject, PoolStatus>)
      reads this`lookupsCreated, this`prefabLookup, this`instanceLookup, this`owner, prefabLookup.Values
      requires Valid()
      ensures r.Keys == prefabLookup.Keys
    {
      map t | t in prefabLookup :: PoolStatus(prefabLookup[t].CountUsedItems(), prefabLookup[t].Count())
    }

    /** The clones tracked for a pool are exactly the instances it has handed
        out, so its used count is the number of live clones from it. */
    lemma TrackedAreInUse(p: ObjectPool)
      requires Valid() && p in prefabLookup.Values
      ensures TrackedBy(p) == p.inUse
      ensures p.CountUsedItems() == |TrackedBy(p)| <= p.Count()
    {
    }

    /** The status report counts, for every prefab, the live clones spawned
        from it and not yet released, out of the instances its pool created. */
    lemma StatusCountsLiveClones()
      requires Valid()
      ensures forall t :: t in Status() ==>
        Status()[t].inUse == |TrackedBy(prefabLookup[t])| && 0 <= Status()[t].inUse <= Status()[t].total
    {
      forall t | t in Status()
        ensures Status()[t].inUse == |TrackedBy(prefabLookup[t])| && 0 <= Status()[t].inUse <= Status()[t].total
      {
        TrackedAreInUse(prefabLookup[t]);
      }
    }

    /** The component as the scene creates it, before Awake: its lookups do not
        exist yet, so it is not Valid until Awake has run. */
    constructor (logStatus: bool, listPrefab: seq<GameObject>, initSize: int)
      ensures !lookupsCreated && !Valid()
      ensures this.logStatus == logStatus && this.listPrefab == listPrefab && this.initSize == initSize
      ensures prefabLookup == map[] && instanceLookup == map[] && !dirty
    {
      this.logStatus := logStatus;
      this.listPrefab := listPrefab;
      this.initSize := initSize;
      prefabLookup := map[];
      instanceLookup := map[];
      dirty := false;
      lookupsCreated := false;
      owner := map[];
    }

    /** Starts from empty lookups and warms a pool of initSize instances for
        each prefab of listPrefab in turn; the exception for a repeated prefab
        ends the loop at its second occurrence. */
    method Awake() returns (r: Outcome<PoolError>)
      modifies this`lookupsCreated, this`prefabLookup, this`instanceLookup, this`dirty, this`owner
      ensures Valid()
      ensures instanceLookup == map[]
      ensures r.Pass? <==> Distinct(listPrefab)
      ensures r.Pass? ==> prefabLookup.Keys == (set t | t in listPrefab) && dirty == (old(dirty) || listPrefab != [])
      ensures r.Fail? ==>
        && dirty
        && exists j ::
          && 0 < j < |listPrefab| && listPrefab[j] in listPrefab[..j]
          && Distinct(listPrefab[..j])
          && r.error == PoolAlreadyCreated(listPrefab[j])
          && prefabLookup.Keys == (set t | t in listPrefab[..j])
      ensures forall p :: p in prefabLookup.Values ==>
        fresh(p) && p.CountUsedItems() == 0 && p.Count() == (if initSize < 0 then 0 else initSize)
    {
      prefabLookup := map[];
      instanceLookup := map[];
      owner := map[];
      lookupsCreated := true;
      r := Pass;
      var i := 0;
      while i < |listPrefab|
        invariant 0 <= i <= |listPrefab|
        invariant Valid()
        invariant instanceLookup == map[]
        invariant r.Pass?
        invariant Distinct(listPrefab[..i])
        invariant forall t :: t in prefabLookup <==> t in listPrefab[..i]
        invariant dirty == (old(dirty) || i > 0)
        invariant forall p :: p in prefabLookup.Values ==>
          fresh(p) && p.inUse == {} && p.created == (if initSize < 0 then 0 else initSize)
      {
        assert listPrefab[..i + 1] == listPrefab[..i] + [listPrefab[i]];
        r := WarmPool(listPrefab[i], initSize);
        if r.Fail? {
          FirstRepeat(listPrefab, i);
          return;
        }
        i := i + 1;
      }
      assert listPrefab[..i] == listPrefab;
    }

    /** An entry that already occurs before it makes the list not distinct. */
    static lemma FirstRepeat(s: seq<GameObject>, i: nat)
      requires i < |s| && s[i] in s[..i]
      ensures !Distinct(s) && 0 < i
    {
      var k :| 0 <= k < i && s[..i][k] == s[i];
      assert s[k] == s[i];
    }

    /** Update: logs the status and clears the flag only when status logging
        is on and something changed since the last report. */
    method Update() returns (report: Option<map<GameObject, PoolStatus>>)
      requires Valid()
      modifies this`dirty
      ensures Valid()
      ensures report.Some? <==> old(logStatus && dirty)
      ensures report.Some? ==> report.value == Status() && !dirty
      ensures report.None? ==> dirty == old(dirty)
    {
      report := None;
      if logStatus && dirty {
        report := Some(Status());
        dirty := false;
      }
    }

    /** warmPool: declares the pool of a prefab, once. A prefab that already
        has a pool is an error and changes nothing. This is the instance
        method warmPool, not the static forwarder WarmPool that calls it. */
    method WarmPool(prefab: GameObject, size: int) returns (r: Outcome<PoolError>)
      requires Valid()
      modifies this`prefabLookup, this`dirty, this`owner
      ensures Valid()
      ensures r.Fail? <==> prefab in old(prefabLookup)
      ensures r.Fail? ==>
        && r.error == PoolAlreadyCreated(prefab) && prefabLookup == old(prefabLookup)
        && dirty == old(dirty) && owner == old(owner)
      ensures r.Pass? ==>
        && prefab in prefabLookup && fresh(prefabLookup[prefab])
        && prefabLookup == old(prefabLookup)[prefab := prefabLookup[prefab]]
        && prefabLookup[prefab].CountUsedItems() == 0
        && prefabLookup[prefab].Count() == (if size < 0 then 0 else size)
        && (forall i :: 0 <= i < |prefabLookup[prefab].free| ==> fresh(prefabLookup[prefab].free[i]))
        && dirty
    {
      if prefab in prefabLookup {
        return Fail(PoolAlreadyCreated(prefab));
      }
      var pool := new ObjectPool(size);
      prefabLookup := prefabLookup[prefab := pool];
      owner := owner + map x | x in pool.free :: pool;
      dirty := true;
      r := Pass;
      DeclareKeepsValid(prefab, pool);
    }

    /** Declaring a new, empty pool for a prefab that had none keeps the
        manager consistent. */
    twostate lemma DeclareKeepsValid(prefab: GameObject, new pool: ObjectPool)
      requires old(Valid()) && lookupsCreated && prefab !in old(prefabLookup) && pool !in old(prefabLookup.Values)
      requires forall q :: q in old(prefabLookup.Values) ==> unchanged(q)
      requires pool.Valid() && pool.inUse == {}
      requires forall x :: x in pool.free ==> x !in old(owner) && x !in old(instanceLookup)
      requires prefabLookup == old(prefabLookup)[prefab := pool]
      requires instanceLookup == old(instanceLookup)
      requires owner == old(owner) + map x | x in pool.free :: pool
      ensures Valid()
    {
      ghost var oldPools := old(prefabLookup.Values);
      assert prefabLookup.Values == oldPools + {pool} by {
        forall v | v in oldPools ensures v in prefabLookup.Values {
          var t :| t in old(prefabLookup) && old(prefabLookup)[t] == v;
          assert prefabLookup[t] == v;
        }
        forall v | v in prefabLookup.Values ensures v in oldPools + {pool} {
          var t :| t in prefabLookup && prefabLookup[t] == v;
          if t != prefab {
            assert old(prefabLookup)[t] == v;
          }
        }
        assert prefabLookup[prefab] == pool;
      }
      assert OnePoolPerPrefab();
      assert TrackedInUse();
      assert InUseTracked();
      assert FreeUntracked();
    }

    /** spawnObject: draws an instance from the prefab's pool, warming a pool
        of one instance first when the prefab has none, and records the clone
        as drawn from that pool. The clone is never one already tracked, so
        the Dictionary.Add that records it cannot fail. This is the instance
        method spawnObject, not the static forwarder SpawnObject. */
    method SpawnObject(prefab: GameObject) returns (clone: GameObject)
      requires Valid()
      modifies this`prefabLookup, this`instanceLookup, this`dirty, this`owner
      modifies if prefab in prefabLookup then {prefabLookup[prefab]} else {}
      ensures Valid()
      ensures prefab in prefabLookup
      ensures prefab in old(prefabLookup) ==> prefabLookup == old(prefabLookup)
      ensures prefab !in old(prefabLookup) ==>
        fresh(prefabLookup[prefab]) && prefabLookup == old(prefabLookup)[prefab := prefabLookup[prefab]]
      ensures clone !in old(instanceLookup)
      ensures instanceLookup == old(instanceLookup)[clone := prefabLookup[prefab]]
      ensures clone in prefabLookup[prefab].inUse
      ensures prefab in old(prefabLookup) && old(prefabLookup[prefab].free) != [] ==>
        clone in old(prefabLookup[prefab].free)
      ensures prefab in old(prefabLookup) && old(prefabLookup[prefab].free) == [] ==> fresh(clone)
      ensures prefab !in old(prefabLookup) ==>
        && prefabLookup[prefab].Count() == 1 && prefabLookup[prefab].CountUsedItems() == 1 && fresh(clone)
      ensures prefab in old(prefabLookup) ==>
        prefabLookup[prefab].Count() ==
          old(prefabLookup[prefab].Count()) + (if old(prefabLookup[prefab].free) == [] then 1 else 0)
      ensures prefab in old(prefabLookup) && old(prefabLookup[prefab].free) != [] ==>
        multiset(prefabLookup[prefab].free) + multiset{clone} == multiset(old(prefabLookup[prefab].free))
      ensures dirty
    {
      if prefab !in prefabLookup {
        var _ := WarmPool(prefab, 1);
      }
      clone := Draw(prefab);
    }

    /** The second half of spawnObject, once the prefab has a pool: take an
        instance from it and record where it came from. */
    method Draw(prefab: GameObject) returns (clone: GameObject)
      requires Valid() && prefab in prefabLookup
      modifies this`instanceLookup, this`dirty, this`owner, prefabLookup[prefab]
      ensures Valid()
      ensures clone !in old(instanceLookup)
      ensures instanceLookup == old(instanceLookup)[clone := prefabLookup[prefab]]
      ensures clone in prefabLookup[prefab].inUse
      ensures old(prefabLookup[prefab].free) != [] ==> clone in old(prefabLookup[prefab].free)
      ensures old(prefabLookup[prefab].free) == [] ==> fresh(clone)
      ensures prefabLookup[prefab].Count() ==
        old(prefabLookup[prefab].Count()) + (if old(prefabLookup[prefab].free) == [] then 1 else 0)
      ensures old(prefabLookup[prefab].free) != [] ==>
        multiset(prefabLookup[prefab].free) + multiset{clone} == multiset(old(prefabLookup[prefab].free))
      ensures dirty
    {
      var pool := prefabLookup[prefab];
      clone := pool.GetItem();
      assert clone in old(pool.free) ==> clone !in instanceLookup by {
        if clone in old(pool.free) {
          var k :| 0 <= k < |old(pool.free)| && old(pool.free)[k] == clone;
        }
      }
      instanceLookup := instanceLookup[clone := pool];
      owner := owner[clone := pool];
      dirty := true;
      RecordKeepsValid(pool, clone);
    }

    /** Recording a clone just drawn from one of the pools, when the other
        pools are untouched, keeps the manager consistent. */
    twostate lemma RecordKeepsValid(pool: ObjectPool, new clone: GameObject)
      requires old(Valid()) && lookupsCreated && pool in old(prefabLookup.Values)
      requires prefabLookup == old(prefabLookup)
      requires forall q :: q in old(prefabLookup.Values) && q != pool ==> unchanged(q)
      requires pool.Valid() && pool.inUse == old(pool.inUse) + {clone}
      requires forall x :: x in pool.free ==> x in old(pool.free)
      requires clone in old(pool.free) || !old(allocated(clone))
      requires clone !in old(instanceLookup)
      requires instanceLookup == old(instanceLookup)[clone := pool]
      requires owner == old(owner)[clone := pool]
      ensures Valid()
    {
      assert clone in old(pool.free) ==> old(owner)[clone] == pool by {
        if clone in old(pool.free) {
          var k :| 0 <= k < |old(pool.free)| && old(pool.free)[k] == clone;
        }
      }
      assert TrackedInUse() by {
        forall x | x in instanceLookup
          ensures instanceLookup[x] in prefabLookup.Values
          ensures x in instanceLookup[x].inUse && x in owner && owner[x] == instanceLookup[x]
        {
          if x != clone {
            assert x in old(instanceLookup);
          }
        }
      }
      assert InUseTracked() by {
        forall p, x | p in prefabLookup.Values && x in p.inUse
          ensures x in instanceLookup && instanceLookup[x] == p
        {
          if x != clone {
            assert x in old(p.inUse);
          }
        }
      }
      assert FreeUntracked() by {
        forall p, i | p in prefabLookup.Values && 0 <= i < |p.free|
          ensures p.free[i] in owner && owner[p.free[i]] == p && p.free[i] !in instanceLookup
        {
          var x := p.free[i];
          if p == pool {
            assert x in pool.free;
            var k :| 0 <= k < |old(pool.free)| && old(pool.free)[k] == x;
          } else {
            assert x in old(p.free);
          }
        }
      }
    }

    /** releaseObject: returns a tracked clone to the pool recorded for it and
        forgets it; an untracked clone (a second release, or one that did not
        come from here) is reported and nothing changes. This is the instance
        method releaseObject, not the static forwarder ReleaseObject. */
    method ReleaseObject(clone: GameObject)
      requires Valid()
      modifies this`instanceLookup, this`dirty
      modifies if clone in instanceLookup then {instanceLookup[clone]} else {}
      ensures Valid()
      ensures clone !in old(instanceLookup) ==> instanceLookup == old(instanceLookup) && dirty == old(dirty)
      ensures clone in old(instanceLookup) ==>
        && instanceLookup == old(instanceLookup) - {clone}
        && old(instanceLookup[clone]).free == old(instanceLookup[clone].free) + [clone]
        && clone !in old(instanceLookup[clone]).inUse
        && dirty
    {
      if clone in instanceLookup {
        var pool := instanceLookup[clone];
        pool.ReleaseItem(clone);
        instanceLookup := instanceLookup - {clone};
        dirty := true;
        ReturnKeepsValid(pool, clone);
      }
    }

    /** Returning a tracked clone to its pool and forgetting it keeps the
        manager consistent. */
    twostate lemma ReturnKeepsValid(pool: ObjectPool, new clone: GameObject)
      requires old(Valid()) && lookupsCreated && clone in old(instanceLookup) && pool == old(instanceLookup)[clone]
      requires prefabLookup == old(prefabLookup) && owner == old(owner)
      requires forall q :: q in old(prefabLookup.Values) && q != pool ==> unchanged(q)
      requires pool.free == old(pool.free) + [clone] && pool.created == old(pool.created)
      requires pool.inUse == old(pool.inUse) - {clone}
      requires instanceLookup == old(instanceLookup) - {clone}
      ensures Valid()
    {
      assert pool.Valid();
      assert TrackedInUse() by {
        forall x | x in instanceLookup
          ensures instanceLookup[x] in prefabLookup.Values
          ensures x in instanceLookup[x].inUse && x in owner && owner[x] == instanceLookup[x]
        {
          assert x in old(instanceLookup);
        }
      }
      assert InUseTracked() by {
        forall p, x | p in prefabLookup.Values && x in p.inUse
          ensures x in instanceLookup && instanceLookup[x] == p
        {
          assert x in old(p.inUse);
        }
      }
      assert FreeUntracked() by {
        forall p, i | p in prefabLookup.Values && 0 <= i < |p.free|
          ensures p.free[i] in owner && owner[p.free[i]] == p && p.free[i] !in instanceLookup
        {
          if p == pool && i == |p.free| - 1 {
          } else {
            assert p.free[i] == old(p.free)[i];
          }
        }
      }
    }
  }
}
