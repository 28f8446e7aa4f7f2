/** The global publish/subscribe registry: a dictionary from a closed set of
    event identifiers to the ordered list of callbacks registered for each. */
module EventDispatching {
  import opened Lists

  /** The closed enumeration of events the game routes. */
  datatype EventID =
    | None
    | OnSpaceShipShoot
    | OnBulletHit
    | OnEnemyDie
    | OnAudioDBValueHit
    | OnAudioDBValueChange
    | OnTriangleEnemyHit
    | OnEarthHit
    | OnMultiplierChange
    | OnGameOver

  /** Identity of a Unity object that a delegate is bound to. */
  type ObjectId = nat

  /** A delegate of type Action<Component, object>: either null, or a handler
      method bound to a target object. Two delegates are equal exactly when
      their targets and methods are, which is the equality this datatype has. */
  datatype Callback = Null | Delegate(target: ObjectId, handler: nat)

  /** One invocation made while an event is posted. */
  datatype Call<S, P> = Call(callback: Callback, sender: S, param: P)

  /** The invocations a post makes: every entry of the list, in order, with
      the same sender and payload. */
  function Invocations<S, P>(list: seq<Callback>, sender: S, param: P): seq<Call<S, P>>
    decreases |list|
  {
    if list == [] then []
    else Invocations(list[..|list| - 1], sender, param) + [Call(list[|list| - 1], sender, param)]
  }

  /** Entry k of the invocations calls entry k of the list. */
  lemma {:induction false} InvocationsCallEach<S, P>(list: seq<Callback>, sender: S, param: P)
    ensures |Invocations(list, sender, param)| == |list|
    ensures forall k :: 0 <= k < |list| ==> Invocations(list, sender, param)[k] == Call(list[k], sender, param)
    decreases |list|
  {
    if list != [] {
      var init := list[..|list| - 1];
      InvocationsCallEach(init, sender, param);
      assert forall k :: 0 <= k < |init| ==> list[k] == init[k];
    }
  }

  /** Invoking the callback with this sender and payload raises an exception:
      always so for a null delegate (a NullReferenceException inside the
      try block), and for a bound delegate whenever its handler throws. */
  predicate Faults<S, P>(c: Callback, sender: S, param: P, throws: (Callback, S, P) -> bool)
  {
    c.Null? || throws(c, sender, param)
  }

  /** The test that keeps an entry in its list during a post. */
  function Runs<S, P>(sender: S, param: P, throws: (Callback, S, P) -> bool): Callback -> bool
  {
    c => !Faults(c, sender, param, throws)
  }

  /** What a list keeps after one post: the entries that did not fault. */
  function Survivors<S, P>(list: seq<Callback>, sender: S, param: P, throws: (Callback, S, P) -> bool): seq<Callback>
  {
    Filter(list, Runs(sender, param, throws))
  }

  /** The entries surviving a post do not fault when posted the same event
      again, and keep their registration order. */
  lemma SurvivorsAreStable<S, P>(list: seq<Callback>, sender: S, param: P, throws: (Callback, S, P) -> bool)
    ensures forall i :: 0 <= i < |Survivors(list, sender, param, throws)| ==>
      !Faults(Survivors(list, sender, param, throws)[i], sender, param, throws)
    ensures Survivors(Survivors(list, sender, param, throws), sender, param, throws) == Survivors(list, sender, param, throws)
    ensures IsSubsequence(Survivors(list, sender, param, throws), list)
  {
    FilterMembers(list, Runs(sender, param, throws));
    FilterIdempotent(list, Runs(sender, param, throws));
    FilterIsSubsequence(list, Runs(sender, param, throws));
  }

  /** The test RemoveRedundancies applies: the delegate is null, or the Unity
      object it is bound to has been destroyed (Target.Equals(null)). */
  predicate Stale(c: Callback, destroyed: set<ObjectId>)
  {
    c.Null? || c.target in destroyed
  }

  /** The test that keeps an entry during a sweep. */
  function Live(destroyed: set<ObjectId>): Callback -> bool
  {
    c => !Stale(c, destroyed)
  }

  /** The entries of a list that are not stale, in order. */
  function LiveEntries(list: seq<Callback>, destroyed: set<ObjectId>): seq<Callback>
  {
    Filter(list, Live(destroyed))
  }

  /** The list the reverse-index sweep of RemoveRedundancies leaves, read from
      the loop as written: the entries are visited from the last one down; a
      stale entry is removed and the index then drops by two, so the entry just
      below a removed one is never looked at and stays. */
  function SweepAsWritten(list: seq<Callback>, destroyed: set<ObjectId>): seq<Callback>
    decreases |list|
  {
    if list == [] then []
    else if !Stale(list[|list| - 1], destroyed) then
      SweepAsWritten(list[..|list| - 1], destroyed) + [list[|list| - 1]]
    else if |list| == 1 then []
    else
      SweepAsWritten(list[..|list| - 2], destroyed) + [list[|list| - 2]]
  }

  /** The as-written sweep never removes a live entry: its live entries are
      exactly those of the original list, in the same order. */
  lemma {:induction false} SweepAsWrittenKeepsLive(list: seq<Callback>, destroyed: set<ObjectId>)
    ensures LiveEntries(SweepAsWritten(list, destroyed), destroyed) == LiveEntries(list, destroyed)
    decreases |list|
  {
    var keep := Live(destroyed);
    if list != [] {
      var n := |list|;
      var last := list[n - 1];
      if !Stale(last, destroyed) {
        SweepAsWrittenKeepsLive(list[..n - 1], destroyed);
        FilterAppend(SweepAsWritten(list[..n - 1], destroyed), [last], keep);
        assert Filter([last], keep) == Filter([], keep) + [last];
      } else if n > 1 {
        var pre, skipped := list[..n - 2], list[n - 2];
        SweepAsWrittenKeepsLive(pre, destroyed);
        FilterAppend(SweepAsWritten(pre, destroyed), [skipped], keep);
        assert list[..n - 1] == pre + [skipped];
        FilterAppend(pre, [skipped], keep);
        assert list[..n - 1][..n - 2] == pre;
        assert [skipped][..0] == [];
        assert Filter(list, keep) == Filter(list[..n - 1], keep);
      } else {
        assert list[..0] == [];
        assert Filter(list, keep) == Filter([], keep);
      }
    }
  }

  /** The as-written sweep only deletes entries; it never reorders them. */
  lemma {:induction false} SweepAsWrittenIsSubsequence(list: seq<Callback>, destroyed: set<ObjectId>)
    ensures IsSubsequence(SweepAsWritten(list, destroyed), list)
    decreases |list|
  {
    if list != [] {
      var n := |list|;
      if !Stale(list[n - 1], destroyed) {
        var pre := list[..n - 1];
        var swept := SweepAsWritten(pre, destroyed);
        assert SweepAsWritten(list, destroyed) == swept + [list[n - 1]];
        assert list == pre + [list[n - 1]];
        SweepAsWrittenIsSubsequence(pre, destroyed);
        SubsequenceAppend(swept, pre, [list[n - 1]]);
      } else if n > 1 {
        var pre := list[..n - 2];
        var swept := SweepAsWritten(pre, destroyed);
        assert SweepAsWritten(list, destroyed) == swept + [list[n - 2]];
        assert list == pre + [list[n - 2]] + [list[n - 1]];
        SweepAsWrittenIsSubsequence(pre, destroyed);
        SubsequenceAppend(swept, pre, [list[n - 2]]);
        SubsequenceOfLonger(swept + [list[n - 2]], pre + [list[n - 2]], [list[n - 1]]);
      } else {
        assert SweepAsWritten(list, destroyed) == [];
      }
    }
  }

  /** When no two stale entries are adjacent the skipped entry is always live,
      and then the as-written sweep does remove every stale entry. */
  lemma {:induction false} SweepAsWrittenExactWithoutAdjacentStale(list: seq<Callback>, destroyed: set<ObjectId>)
    requires forall i :: 0 < i < |list| ==> !(Stale(list[i - 1], destroyed) && Stale(list[i], destroyed))
    ensures SweepAsWritten(list, destroyed) == LiveEntries(list, destroyed)
    decreases |list|
  {
    var keep := Live(destroyed);
    if list != [] {
      var n := |list|;
      if !Stale(list[n - 1], destroyed) {
        SweepAsWrittenExactWithoutAdjacentStale(list[..n - 1], destroyed);
      } else if n > 1 {
        var pre, skipped := list[..n - 2], list[n - 2];
        SweepAsWrittenExactWithoutAdjacentStale(pre, destroyed);
        assert list[..n - 1][..n - 2] == pre;
        assert !Stale(skipped, destroyed);
        assert Filter(list, keep) == Filter(list[..n - 1], keep);
        assert Filter(list[..n - 1], keep) == Filter(pre, keep) + [skipped];
      } else {
        assert list[..0] == [];
      }
    }
  }

  /** Two stale entries in a row: the sweep as written leaves the lower one. */
  lemma SweepAsWrittenLeavesStaleEntry()
    ensures SweepAsWritten([Delegate(7, 0), Delegate(7, 0)], {7}) == [Delegate(7, 0)]
    ensures LiveEntries([Delegate(7, 0), Delegate(7, 0)], {7}) == []
  {
    var list := [Delegate(7, 0), Delegate(7, 0)];
    assert list[..0] == [];
    assert list[..1] == [Delegate(7, 0)];
    assert list[..1][..0] == [];
  }

  /** The as-written sweep of the first i + 1 entries, by what happens to
      entry i. */
  lemma SweepAsWrittenPrefix(list: seq<Callback>, i: nat, destroyed: set<ObjectId>)
    requires i < |list|
    ensures !Stale(list[i], destroyed) ==>
      SweepAsWritten(list[..i + 1], destroyed) == SweepAsWritten(list[..i], destroyed) + [list[i]]
    ensures Stale(list[i], destroyed) && i == 0 ==> SweepAsWritten(list[..i + 1], destroyed) == []
    ensures Stale(list[i], destroyed) && 0 < i ==>
      SweepAsWritten(list[..i + 1], destroyed) == SweepAsWritten(list[..i - 1], destroyed) + [list[i - 1]]
  {
    var prefix := list[..i + 1];
    assert prefix[i] == list[i] && prefix[..i] == list[..i];
    if 0 < i {
      assert prefix[..i - 1] == list[..i - 1] && prefix[i - 1] == list[i - 1];
    }
  }

  /** The inner loop of RemoveRedundancies as written, on one listener list:
      `for (amount = Count, i = amount - 1; i >= 0; i--)`, with `RemoveAt(i)`
      followed by an extra `i--` whenever the entry is stale. */
  method SweepListAsWritten(listenerList: seq<Callback>, destroyed: set<ObjectId>) returns (r: seq<Callback>)
    ensures r == SweepAsWritten(listenerList, destroyed)
  {
    r := listenerList;
    var amount := |r|;
    var i := amount - 1;
    // The entries below n are untouched; tail is what the sweep left above.
    ghost var n, tail := |listenerList|, [];
    assert listenerList[..n] == listenerList;
    while i >= 0
      invariant 0 <= n <= |listenerList|
      invariant i == n - 1 || (n == 0 && i == -2)
      invariant r == listenerList[..n] + tail
      invariant SweepAsWritten(listenerList, destroyed) == SweepAsWritten(listenerList[..n], destroyed) + tail
      decreases i
    {
      var listener := r[i];
      SliceSplit(listenerList, i, tail, r);
      SweepAsWrittenPrefix(listenerList, i, destroyed);
      if Stale(listener, destroyed) {
        r := r[..i] + r[i + 1..];
        if i > 0 {
          n, tail := i - 1, [listenerList[i - 1]] + tail;
        } else {
          n := 0;
        }
        i := i - 1;
      } else {
        n, tail := i, [listener] + tail;
      }
      i := i - 1;
    }
    assert listenerList[..n] == [];
  }

  /** One step of the corrected sweep at index i: the entry there is kept or
      removed exactly as the filter would. */
  lemma SweepStep(s: seq<Callback>, i: nat, destroyed: set<ObjectId>, r: seq<Callback>)
    requires i < |s| && r == s[..i + 1] + LiveEntries(s[i + 1..], destroyed)
    ensures i < |r| && r[i] == s[i]
    ensures (if Stale(r[i], destroyed) then r[..i] + r[i + 1..] else r) == s[..i] + LiveEntries(s[i..], destroyed)
  {
    var x, tail := s[i], s[i + 1..];
    FilterAppend([x], tail, Live(destroyed));
    assert s[i..] == [x] + tail;
    assert [x][..0] == [];
    assert s[..i + 1] == s[..i] + [x];
    if Stale(x, destroyed) {
      assert r[..i] == s[..i];
      assert r[i + 1..] == LiveEntries(tail, destroyed);
    }
  }

  /** The sweep the comment above RemoveRedundancies describes (and the same
      reverse loop without the extra decrement): every stale entry goes, every
      live one stays, in order. */
  method SweepList(listenerList: seq<Callback>, destroyed: set<ObjectId>) returns (r: seq<Callback>)
    ensures r == LiveEntries(listenerList, destroyed)
  {
    r := listenerList;
    var i := |r| - 1;
    ghost var done: seq<Callback> := [];
    assert listenerList[i + 1..] == [];
    while i >= 0
      invariant -1 <= i < |listenerList|
      invariant r == listenerList[..i + 1] + done
      invariant done == LiveEntries(listenerList[i + 1..], destroyed)
      decreases i
    {
      SweepStep(listenerList, i, destroyed, r);
      var listener := r[i];
      if Stale(listener, destroyed) {
        r := r[..i] + r[i + 1..];
      }
      done := LiveEntries(listenerList[i..], destroyed);
      i := i - 1;
    }
    assert i == -1 && listenerList[..0] == [] && listenerList[0..] == listenerList;
    assert r == done;
  }

  /** One step of the posting loop: with the first j entries of the original
      list already walked (done holds the ones that did not fail), entry i of
      the working list is original entry j, and removing it when it fails, or
      moving past it otherwise, accounts for entry j + 1. */
  lemma PostStep<S, P>(orig: seq<Callback>, j: nat, sender: S, param: P, throws: (Callback, S, P) -> bool,
                       done: seq<Callback>, work: seq<Callback>, i: nat)
    requires j < |orig| && done == Filter(orig[..j], Runs(sender, param, throws))
    requires work == done + orig[j..] && i == |done|
    ensures i < |work| && work[i] == orig[j]
    ensures !Faults(orig[j], sender, param, throws) ==>
      && work == Filter(orig[..j + 1], Runs(sender, param, throws)) + orig[j + 1..]
      && i + 1 == |Filter(orig[..j + 1], Runs(sender, param, throws))|
    ensures Faults(orig[j], sender, param, throws) ==>
      && work[..i] + work[i + 1..] == Filter(orig[..j + 1], Runs(sender, param, throws)) + orig[j + 1..]
      && i == |Filter(orig[..j + 1], Runs(sender, param, throws))|
  {
    var keep := Runs(sender, param, throws);
    FilterPrefixStep(orig, j, keep);
    assert orig[j..] == [orig[j]] + orig[j + 1..];
    assert work == done + [orig[j]] + orig[j + 1..];
    if !keep(orig[j]) {
      assert work[..i] == done;
      assert work[i + 1..] == orig[j + 1..];
    }
  }

  /** The dictionary with the list of e replaced, and the key dropped when the
      new list is empty (the dispatcher never keeps an empty list). */
  function Replaced(d: map<EventID, seq<Callback>>, e: EventID, list: seq<Callback>): map<EventID, seq<Callback>>
  {
    if list == [] then d - {e} else d[e := list]
  }

  /** Replacing a (non-empty) list again is the same as replacing it once. */
  lemma ReplacedTwice(d: map<EventID, seq<Callback>>, e: EventID, prev: seq<Callback>, list: seq<Callback>)
    requires prev != []
    ensures (var d' := Replaced(d, e, prev)[e := list]; if list == [] then d' - {e} else d') == Replaced(d, e, list)
  {
    var d' := Replaced(d, e, prev)[e := list];
    if list == [] {
      assert d' - {e} == d - {e};
    } else {
      assert d' == d[e := list];
    }
  }

  /** The loop of PostEvent over the list of one event, on the listener
      dictionary d: invoke every entry in turn; one that raises is removed in
      place (RemoveAt on the list the dictionary holds), the key goes when the
      list empties, and the walk resumes at the same index. */
  method PostToList<S, P>(d: map<EventID, seq<Callback>>, eventID: EventID, sender: S, param: P, throws: (Callback, S, P) -> bool)
    returns (dict: map<EventID, seq<Callback>>, calls: seq<Call<S, P>>)
    requires eventID in d && d[eventID] != []
    ensures dict == Replaced(d, eventID, Survivors(d[eventID], sender, param, throws))
    ensures calls == Invocations(d[eventID], sender, param)
  {
    dict := d;
    calls := [];
    var actionList := dict[eventID];
    ghost var orig := actionList;
    ghost var j, done := 0, [];
    assert orig[..0] == [] && orig[0..] == orig;
    assert dict == Replaced(d, eventID, actionList);
    var i, amount := 0, |actionList|;
    while i < amount
      invariant 0 <= i <= amount == |actionList|
      invariant 0 <= j <= |orig|
      invariant done == Filter(orig[..j], Runs(sender, param, throws))
      invariant actionList == done + orig[j..] && i == |done|
      invariant calls == Invocations(orig[..j], sender, param)
      invariant dict == Replaced(d, eventID, actionList)
      decreases amount - i
    {
      PostStep(orig, j, sender, param, throws, done, actionList, i);
      assert orig[..j + 1][..j] == orig[..j];
      calls := calls + [Call(actionList[i], sender, param)];
      if Faults(actionList[i], sender, param, throws) {
        ghost var prev := actionList;
        actionList := actionList[..i] + actionList[i + 1..];
        // The list is the one in the dictionary, so RemoveAt shows through it.
        dict := dict[eventID := actionList];
        if |actionList| == 0 {
          dict := dict - {eventID};
        }
        ReplacedTwice(d, eventID, prev, actionList);
        amount := amount - 1;
        i := i - 1;
      }
      i := i + 1;
      j := j + 1;
      done := Filter(orig[..j], Runs(sender, param, throws));
    }
    assert j == |orig| && orig[..j] == orig && orig[j..] == [];
    assert actionList == done;
  }

  class EventDispatcher {
    var listenerDict: map<EventID, seq<Callback>>

    /** A key is present only while its list holds at least one callback. */
    ghost predicate Valid()
      reads this
    {
      forall e :: e in listenerDict ==> listenerDict[e] != []
    }

    constructor ()
      ensures Valid() && listenerDict == map[]
    {
      listenerDict := map[];
    }

    /** Appends the callback to the event's list, creating the list when the
        event has none; duplicates are kept and other events are untouched. */
    method RegisterListener(eventID: EventID, callback: Callback)
      requires Valid()
      modifies this
      ensures Valid()
      ensures eventID in listenerDict
      ensures eventID in old(listenerDict) ==> listenerDict[eventID] == old(listenerDict)[eventID] + [callback]
      ensures eventID !in old(listenerDict) ==> listenerDict[eventID] == [callback]
      ensures forall e :: e != eventID ==> (e in listenerDict <==> e in old(listenerDict))
      ensures forall e :: e != eventID && e in old(listenerDict) ==> listenerDict[e] == old(listenerDict)[e]
    {
      if eventID in listenerDict {
        listenerDict := listenerDict[eventID := listenerDict[eventID] + [callback]];
      } else {
        var listCallback := [callback];
        listenerDict := listenerDict[eventID := listCallback];
      }
    }

    /** Invokes every callback registered for the event, in list order, with
        the same sender and payload; a callback that raises is removed from
        the list in place and the walk goes on with the entry after it. An
        event with no entry is reported and nothing happens. */
    method PostEvent<S, P>(eventID: EventID, sender: S, param: P, throws: (Callback, S, P) -> bool)
      returns (calls: seq<Call<S, P>>)
      requires Valid()
      modifies this
      ensures Valid()
      ensures eventID !in old(listenerDict) ==> calls == [] && listenerDict == old(listenerDict)
      ensures eventID in old(listenerDict) ==>
        var orig := old(listenerDict)[eventID];
        && |calls| == |orig|
        && (forall k :: 0 <= k < |orig| ==> calls[k] == Call(orig[k], sender, param))
      ensures eventID in old(listenerDict) ==>
        listenerDict == Replaced(old(listenerDict), eventID, Survivors(old(listenerDict)[eventID], sender, param, throws))
    {
      calls := [];
      if eventID in listenerDict {
        listenerDict, calls := PostToList(listenerDict, eventID, sender, param, throws);
        InvocationsCallEach(old(listenerDict)[eventID], sender, param);
      }
    }

    /** Removes the first entry equal to the callback; a callback that is not
        registered leaves the list as it is, and an event whose list empties
        loses its key. An event with no entry is reported and nothing happens. */
    method RemoveListener(eventID: EventID, callback: Callback)
      requires Valid()
      modifies this
      ensures Valid()
      ensures eventID !in old(listenerDict) ==> listenerDict == old(listenerDict)
      ensures eventID in old(listenerDict) ==>
        listenerDict == Replaced(old(listenerDict), eventID, RemoveFirst(old(listenerDict)[eventID], callback))
    {
      if eventID in listenerDict {
        var actionList := listenerDict[eventID];
        if callback in actionList {
          actionList := RemoveFirst(actionList, callback);
          listenerDict := listenerDict[eventID := actionList];
          if |actionList| == 0 {
            listenerDict := listenerDict - {eventID};
          }
        } else {
          assert listenerDict == old(listenerDict)[eventID := actionList];
        }
      }
    }

    /** Sweeps every event's list with the reverse-index loop as written, and
        drops the keys whose list the sweep emptied. */
    method RemoveRedundancies(destroyed: set<ObjectId>)
      requires Valid()
      modifies this
      ensures Valid()
      ensures listenerDict ==
        map e | e in old(listenerDict) && SweepAsWritten(old(listenerDict)[e], destroyed) != [] ::
          SweepAsWritten(old(listenerDict)[e], destroyed)
    {
      ghost var before := listenerDict;
      var pending := listenerDict.Keys;
      while pending != {}
        invariant pending <= before.Keys
        invariant forall e :: e in pending ==> e in listenerDict && listenerDict[e] == before[e]
        invariant forall e :: e in listenerDict ==> e in before
        invariant forall e :: e in before && e !in pending ==>
          if SweepAsWritten(before[e], destroyed) == [] then e !in listenerDict
          else e in listenerDict && listenerDict[e] == SweepAsWritten(before[e], destroyed)
        decreases pending
      {
        var e :| e in pending;
        var listenerList := SweepListAsWritten(listenerDict[e], destroyed);
        if |listenerList| == 0 {
          listenerDict := listenerDict - {e};
        } else {
          listenerDict := listenerDict[e := listenerList];
        }
        pending := pending - {e};
      }
    }

    /** Drops every event's list. */
    method ClearAllListener()
      modifies this
      ensures Valid() && listenerDict == map[]
    {
      listenerDict := map[];
    }
  }
}
