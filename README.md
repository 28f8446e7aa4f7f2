# Event dispatcher and pool manager

This project models two registries of a small Unity game framework, and
proves properties about them.

* **EventDispatcher** is the game-wide publish/subscribe hub. A dictionary maps
  each `EventID` to the ordered list of callbacks registered for it.
  `PostEvent` calls them in order. A callback that throws is removed from its
  list, in place, while the walk is still going. `RemoveRedundancies` sweeps
  every list from the back to clear out null delegates and delegates whose
  Unity target has been destroyed. As written, it removes some of these stale
  entries and never a live one. The entry just below each removed one is
  skipped (see Findings). No key is ever left holding an empty list.
* **PoolManager** keeps one object pool per prefab. Pools are warmed at
  `Awake`, or lazily on the first spawn of a prefab. It also remembers which
  pool every live clone came from, so a release needs only the clone, and a
  dirty flag tells `Update` when to log the pool status.

Dictionaries become Dafny `map`s, and `List<T>` becomes a `seq`. Both
components are classes whose methods update their fields. The index loops of
the source are `while` loops, each proved against a specification function:

* `PostToList` is proved against `Survivors` and `Invocations`.
* `SweepListAsWritten` is proved against `SweepAsWritten`.
* `Awake` is proved against the set of prefabs it receives.

The outer `foreach` of `RemoveRedundancies` (EventDispatcher.cs:101) is the
`while` loop over the keys still to visit, in `RemoveRedundancies`. The `foreach`
of `PrintStatus` (PoolManager.cs:104) only reads the pools. It becomes the map
comprehension in `Status`.

`SweepList` is not a loop of the source. It is the corrected sweep loop of the
Findings, proved against `LiveEntries`.

The pool manager's class invariant `Valid` says five things:

* one pool per prefab;
* every tracked clone is in use in its recorded pool;
* every instance in use is tracked;
* free instances are untracked;
* every pool is consistent.

It also says that `Awake` has created the two dictionaries, which are null
until then. Only `Awake` establishes the invariant, and every other method
keeps it.

Files:

* `Wrappers.dfy`: `Option`, and `Outcome` (a failure value standing for an exception).
* `Lists.dfy`: the `List<T>` operations the dispatcher uses (`RemoveAt` in a loop, `Remove`, `Contains`), stated on sequences.
* `EventDispatcher.dfy`: module `EventDispatching`.
* `ObjectPool.dfy`: module `Pooling`. This is the least pool contract the manager relies on.
* `PoolManager.dfy`: module `PoolManagement`.

The delegates a callback runs are not visible code. A post therefore takes a
predicate `throws(callback, sender, param)`. It says which bound delegates
raise. A null delegate always raises, because invoking it is a
NullReferenceException inside the `try`. `RemoveRedundancies` takes the set
of destroyed target objects. `PostEvent` returns the sequence of invocations
it makes, and `Update` returns the status report it would log. These stand in
for the side effects.

## Model

| member | source | states |
|---|---|---|
| EventDispatching.EventDispatcher.constructor | Assets/Game/FrameWork/Scripts/EventDispatcher.cs:22 | the dispatcher starts with an empty dictionary, which satisfies the no-empty-list invariant |
| EventDispatching.EventDispatcher.RegisterListener | Assets/Game/FrameWork/Scripts/EventDispatcher.cs:25-39 | the callback is appended to the event's existing list, duplicates included, or becomes a new one-entry list; every other event keeps its key and list |
| EventDispatching.EventDispatcher.PostEvent | Assets/Game/FrameWork/Scripts/EventDispatcher.cs:42-72 | a post of an unregistered event makes no call and changes nothing. Otherwise entry k of the list is called k-th, exactly once, with the given sender and payload. Afterwards the event's list is the order-preserving filter of the callbacks that did not raise, and the key is gone if none survived |
| EventDispatching.PostToList | Assets/Game/FrameWork/Scripts/EventDispatcher.cs:47-66 | the index loop with `RemoveAt(i)`, `amount--`, `i--` and the in-loop key removal leaves exactly `Survivors` of the original list (the key is dropped when that is empty) and performs exactly `Invocations` of the original list, even though it mutates the list it walks |
| EventDispatching.InvocationsCallEach | Assets/Game/FrameWork/Scripts/EventDispatcher.cs:49-53 | a post makes one call per original entry, and the k-th call is to the k-th entry |
| EventDispatching.SurvivorsAreStable | Assets/Game/FrameWork/Scripts/EventDispatcher.cs:55-64 | the survivors keep their registration order. Within this model, where a callback's failure on a given sender and payload is one fixed predicate, no survivor fails on the same post again, and a second identical post removes nothing more. The program itself does not promise this, since a real handler may fail one time and not the next |
| Lists.FilterMembers | Assets/Game/FrameWork/Scripts/EventDispatcher.cs:55-64 | removing the entries that raise keeps exactly the entries that pass: every kept entry passes and comes from the list, and every passing entry is kept |
| Lists.FilterIsSubsequence | Assets/Game/FrameWork/Scripts/EventDispatcher.cs:58 | removal in place with `RemoveAt` only deletes entries and never reorders the rest |
| Lists.FilterIdempotent | Assets/Game/FrameWork/Scripts/EventDispatcher.cs:55-64 | applying the same removal twice is the same as applying it once |
| Lists.IndexOf | Assets/Game/FrameWork/Scripts/EventDispatcher.cs:82-84 | the position `Remove` deletes is an occurrence of the callback with no equal entry before it |
| Lists.RemoveFirst | Assets/Game/FrameWork/Scripts/EventDispatcher.cs:82-84 | `Remove` shortens the list by exactly one when the callback is present, and leaves it unchanged when it is not |
| Lists.RemoveFirstOneCopy | Assets/Game/FrameWork/Scripts/EventDispatcher.cs:84 | `Remove` takes away exactly one copy of the callback, so duplicates registered twice need two removals |
| Lists.RemoveFirstIsSubsequence | Assets/Game/FrameWork/Scripts/EventDispatcher.cs:84 | `Remove` keeps every other callback in its relative order |
| Lists.IndexOfAfterAppend | Assets/Game/FrameWork/Scripts/EventDispatcher.cs:31 | appending a callback at registration does not move its first occurrence; a new callback's first occurrence is the appended one |
| Lists.RemoveFirstAfterAppend | Assets/Game/FrameWork/Scripts/EventDispatcher.cs:31 | removing a callback right after registering it restores the previous list when it was not registered before. If it was, its earlier copy goes and the new one stays last |
| EventDispatching.EventDispatcher.RemoveListener | Assets/Game/FrameWork/Scripts/EventDispatcher.cs:75-95 | an unregistered event or an absent callback changes nothing; otherwise the first equal entry is removed, and the key is dropped when the list empties |
| EventDispatching.SweepListAsWritten | Assets/Game/FrameWork/Scripts/EventDispatcher.cs:103-118 | the reverse loop with `RemoveAt(i)` and the extra `i--`, run on one list, leaves exactly `SweepAsWritten` of that list |
| EventDispatching.SweepAsWrittenKeepsLive | Assets/Game/FrameWork/Scripts/EventDispatcher.cs:104-118 | the sweep as written never removes a live callback; the live callbacks after the sweep are exactly those before it, in order |
| EventDispatching.SweepAsWrittenIsSubsequence | Assets/Game/FrameWork/Scripts/EventDispatcher.cs:104-118 | the sweep only deletes entries and never reorders them |
| EventDispatching.SweepAsWrittenExactWithoutAdjacentStale | Assets/Game/FrameWork/Scripts/EventDispatcher.cs:104-118 | when no two stale callbacks are adjacent, the sweep as written removes every stale callback |
| EventDispatching.SweepAsWrittenLeavesStaleEntry | Assets/Game/FrameWork/Scripts/EventDispatcher.cs:108-116 | two adjacent callbacks bound to a destroyed object: the sweep leaves the lower one in the list (see Findings) |
| EventDispatching.SweepList | Assets/Game/FrameWork/Scripts/EventDispatcher.cs:97-118 | the sweep without the extra decrement leaves exactly the live callbacks, in order, as the comment above `RemoveRedundancies` describes |
| EventDispatching.EventDispatcher.RemoveRedundancies | Assets/Game/FrameWork/Scripts/EventDispatcher.cs:99-120 | every event's list is replaced by its sweep as written, and exactly the events whose sweep emptied the list lose their key |
| EventDispatching.EventDispatcher.ClearAllListener | Assets/Game/FrameWork/Scripts/EventDispatcher.cs:123-126 | the dictionary is empty afterwards |
| Pooling.ObjectPool.constructor | Assets/Game/FrameWork/Scripts/ObjectPool/PoolManager.cs:46 | a new pool holds `size` fresh, distinct, free instances (none for a negative size), and none is in use |
| Pooling.ObjectPool.GetItem | Assets/Game/FrameWork/Scripts/ObjectPool/PoolManager.cs:66 | the instance handed out was free and leaves the free list, or is freshly created when none was free; it joins the in-use set |
| Pooling.ObjectPool.ReleaseItem | Assets/Game/FrameWork/Scripts/ObjectPool/PoolManager.cs:82 | the instance goes back on the free list and leaves the in-use set; the pool stays consistent when it was in use |
| Pooling.ObjectPool.CountUsedItems | Assets/Game/FrameWork/Scripts/ObjectPool/PoolManager.cs:106 | for a consistent pool, the used count is the number of instances in use and never exceeds the total |
| Pooling.ObjectPool.Count | Assets/Game/FrameWork/Scripts/ObjectPool/PoolManager.cs:106 | for a consistent pool, the total is the free instances plus those in use: no instance is lost or counted twice |
| PoolManagement.PoolManager.constructor | Assets/Game/FrameWork/Scripts/ObjectPool/PoolManager.cs:7-14 | the component starts with the inspector settings given and a clean flag. Its lookups do not exist yet, so it is not `Valid`, and no other operation may be called until `Awake` has run |
| PoolManagement.PoolManager.Awake | Assets/Game/FrameWork/Scripts/ObjectPool/PoolManager.cs:17-27 | creates the two lookups, which makes the manager `Valid`. It succeeds exactly when `listPrefab` has no repeated prefab, and then there is one fresh, unused pool of `initSize` instances per listed prefab. Otherwise the exception is for the first repeated prefab, and only the prefabs before it have pools. No clone is tracked |
| PoolManagement.PoolManager.FirstRepeat | Assets/Game/FrameWork/Scripts/ObjectPool/PoolManager.cs:23-26 | a prefab already seen earlier in the list means the list is not duplicate-free and the repeat is not the first entry |
| PoolManagement.PoolManager.Update | Assets/Game/FrameWork/Scripts/ObjectPool/PoolManager.cs:29-36 | the status is reported exactly when logging is on and the flag is set. The report is the current status and clears the flag. Otherwise the flag is untouched |
| PoolManagement.PoolManager.WarmPool | Assets/Game/FrameWork/Scripts/ObjectPool/PoolManager.cs:38-50 | a prefab that already has a pool is an error and changes nothing. Otherwise it gets a fresh pool of `size` new, unused instances, the other prefabs keep theirs, the flag is set, and the manager stays consistent |
| PoolManagement.PoolManager.SpawnObject | Assets/Game/FrameWork/Scripts/ObjectPool/PoolManager.cs:57-74 | a prefab without a pool first gets one of one instance, so afterwards that pool has one instance, it is in use, and it is the clone, newly created. For a prefab that already has a pool, the clone comes off that prefab's free list, which loses exactly that one instance, and the pool's total is unchanged. When the list is empty the clone is new and the total grows by one. It was not tracked before, so `instanceLookup.Add` cannot throw. It is tracked from then on, with its pool. The flag is set |
| PoolManagement.PoolManager.Draw | Assets/Game/FrameWork/Scripts/ObjectPool/PoolManager.cs:64-73 | takes an instance from the prefab's pool and records it under that pool, keeping the manager consistent. When an instance was free, the clone is one of the free instances and leaves the free list; the pool's total grows by one exactly when none was free |
| PoolManagement.PoolManager.ReleaseObject | Assets/Game/FrameWork/Scripts/ObjectPool/PoolManager.cs:76-90 | a tracked clone goes back onto the free list of the pool recorded for it and is forgotten, and the flag is set. An untracked clone, including one released twice, changes nothing |
| PoolManagement.PoolManager.Status | Assets/Game/FrameWork/Scripts/ObjectPool/PoolManager.cs:102-108 | once `Awake` has created the lookups (it requires `Valid`), the report has one line per prefab that has a pool |
| PoolManagement.PoolManager.StatusCountsLiveClones | Assets/Game/FrameWork/Scripts/ObjectPool/PoolManager.cs:102-108 | each prefab's "In Use" count is the number of its clones spawned and not yet released, and lies between 0 and its "Total" |
| PoolManagement.PoolManager.TrackedAreInUse | Assets/Game/FrameWork/Scripts/ObjectPool/PoolManager.cs:64-85 | the clones recorded in `instanceLookup` for a pool are exactly the instances that pool has in use |

## Left out

- Engine-side effects (`SetActive`, transform position and rotation, the parent object and `Instantiate`) are left out; a clone is only an object identity.
- `MyLog.Assert`, `MyLog.LogWarning` and `Debug.Log` only log and do not stop execution, so they are left out. `PostEvent` of an unregistered event and `RemoveListener` with an unknown event change nothing.
- The `Singleton<T>` base class and the static API forwarders (PoolManager.cs:110-132) are left out. The model has one instance. Its `WarmPool`, `SpawnObject` and `ReleaseObject` are the instance methods `warmPool`, `spawnObject` and `releaseObject`, not the forwarders of the same names. So the static `WarmPool` that `spawnObject` (line 61) calls is taken to reach this same instance.
- Null arguments are not modelled, because `GameObject` is a non-null reference here. In the source, a null prefab makes `ContainsKey` throw `ArgumentNullException` (PoolManager.cs:40 and 59), and a null clone makes `clone.SetActive` throw `NullReferenceException` (line 78).
- PoolManager: calling `warmPool`, `spawnObject`, `releaseObject` or `PrintStatus` (the model's `Status`) before `Awake` dereferences the null dictionaries and throws. The model does not model that exception: these methods require `Valid`, which only `Awake` establishes. The dictionaries are created at lines 20-21, before the loop, so `Valid` holds after a failed `Awake` too.
- Update: the model requires `Valid`, although in the source `Update` before `Awake` is a no-op. `dirty` starts false, and every method that would set it throws first before `Awake`. `Update` is private, and the engine calls it only after `Awake`.
- `EventDispatcherExtension`, `AutoReturnPool` and `SimpleEvent` are not part of this model.
- The `spawnObject(prefab)` overload (PoolManager.cs:52-55) only fixes the position and rotation, which are not modelled. It is therefore the same as `SpawnObject`.
- The `ObjectPool<T>` source is not part of this model. `Pooling.ObjectPool` states only what the manager relies on: which free instance `GetItem` reuses is left open; a negative size creates no instance; the factory delegate is not modelled.
- PostEvent: a callback that posts or registers events itself (re-entrant dispatch) is not modelled. Callback behaviour is given by the `throws` predicate and does not change the dispatcher. Since `throws` depends only on the callback, sender and payload, two equal delegates in one list either both raise or both run during a post. A stateful handler in the source could raise on its first copy and not on its second; the model does not capture that.
- PostToList requires a non-empty list for the event. The dispatcher's invariant `Valid` guarantees this, because no key ever holds an empty list.
- RemoveRedundancies: the model removes keys and goes on with the remaining ones. It does not model whether the runtime's dictionary enumerator, after the `Remove` at EventDispatcher.cs:114, raises `InvalidOperationException` on its next step. The order in which keys are visited is left open.
- Stale: a delegate to a static method has a null `Target`, and testing it at EventDispatcher.cs:108 would throw. Such delegates are not modelled; every non-null `Callback` is bound to a target object.
- Delegate equality is modelled as equality of target and method. Multicast delegates are not modelled.

## Findings

| source | as written | input that shows it | evidently intended | confidence | as-written member | corrected member |
|---|---|---|---|---|---|---|
| Assets/Game/FrameWork/Scripts/EventDispatcher.cs:116 | after `RemoveAt(i)` the loop runs `i--` and then the `for` step runs `i--` again. The entry just below a removed one is never examined | one event whose list holds two callbacks bound to the same destroyed object: the sweep removes the upper one and keeps the lower one | every callback with a destroyed target is removed, as the comment at lines 97-98 says. A reverse loop needs no extra decrement after `RemoveAt` | not executed | EventDispatching.SweepListAsWritten, EventDispatching.SweepAsWrittenLeavesStaleEntry | EventDispatching.SweepList |

`RemoveRedundancies` itself keeps the code as written and uses
`SweepListAsWritten`. `SweepAsWrittenKeepsLive` shows the defect is
harmless to live callbacks: they are never removed. The defect only leaves
some stale ones in place. `SweepAsWrittenExactWithoutAdjacentStale` shows it
does no harm when stale callbacks are never adjacent.
