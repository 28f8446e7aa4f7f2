/** The few operations of the .NET List<T> that the dispatcher relies on,
    stated on sequences: filtering (what a sweep with in-place RemoveAt
    leaves), IndexOf, and Remove (which drops the first equal entry). */
module Lists {

  /** The entries of s that satisfy keep, in their original order. */
  function Filter<T>(s: seq<T>, keep: T -> bool): (r: seq<T>)
    ensures |r| <= |s|
    decreases |s|
  {
    if s == [] then []
    else
      var init := Filter(s[..|s| - 1], keep);
      if keep(s[|s| - 1]) then init + [s[|s| - 1]] else init
  }

  /** Extending the filtered prefix of s by one entry. */
  lemma FilterPrefixStep<T>(s: seq<T>, j: nat, keep: T -> bool)
    requires j < |s|
    ensures Filter(s[..j + 1], keep) == Filter(s[..j], keep) + (if keep(s[j]) then [s[j]] else [])
  {
    assert s[..j + 1][..j] == s[..j];
  }

  /** The filter keeps exactly the entries that satisfy keep: what it returns
      satisfies keep and comes from s, and every such entry of s is kept. */
  lemma {:induction false} FilterMembers<T>(s: seq<T>, keep: T -> bool)
    ensures forall i :: 0 <= i < |Filter(s, keep)| ==> Filter(s, keep)[i] in s && keep(Filter(s, keep)[i])
    ensures forall x :: x in s && keep(x) ==> x in Filter(s, keep)
    decreases |s|
  {
    if s != [] {
      var s', last := s[..|s| - 1], s[|s| - 1];
      FilterMembers(s', keep);
      assert s == s' + [last];
      assert forall x :: x in s ==> x in s' || x == last;
    }
  }

  /** a is obtained from b by deleting some entries, without reordering the
      rest. */
  ghost predicate IsSubsequence<T>(a: seq<T>, b: seq<T>)
    decreases |b|
  {
    if a == [] then true
    else if b == [] then false
    else
      (a[|a| - 1] == b[|b| - 1] && IsSubsequence(a[..|a| - 1], b[..|b| - 1]))
      || IsSubsequence(a, b[..|b| - 1])
  }

  lemma {:induction false} SubsequenceOfSelf<T>(s: seq<T>)
    ensures IsSubsequence(s, s)
    decreases |s|
  {
    if s != [] {
      SubsequenceOfSelf(s[..|s| - 1]);
    }
  }

  /** Subsequences are preserved by appending the same tail to both sides. */
  lemma {:induction false} SubsequenceAppend<T>(a: seq<T>, b: seq<T>, t: seq<T>)
    requires IsSubsequence(a, b)
    ensures IsSubsequence(a + t, b + t)
    decreases |t|
  {
    if t != [] {
      var t' := t[..|t| - 1];
      SubsequenceAppend(a, b, t');
      var at, bt := a + t, b + t;
      assert at[..|at| - 1] == a + t';
      assert bt[..|bt| - 1] == b + t';
      assert at[|at| - 1] == bt[|bt| - 1];
      assert IsSubsequence(at[..|at| - 1], bt[..|bt| - 1]);
    } else {
      assert a + t == a && b + t == b;
    }
  }

  /** A subsequence of a prefix is a subsequence of the whole. */
  lemma {:induction false} SubsequenceOfLonger<T>(a: seq<T>, b: seq<T>, t: seq<T>)
    requires IsSubsequence(a, b)
    ensures IsSubsequence(a, b + t)
    decreases |t|
  {
    if t != [] {
      var t' := t[..|t| - 1];
      SubsequenceOfLonger(a, b, t');
      var bt := b + t;
      assert bt[..|bt| - 1] == b + t';
    } else {
      assert b + t == b;
    }
  }

  /** Filtering a concatenation filters each part. */
  lemma {:induction false} FilterAppend<T>(a: seq<T>, b: seq<T>, keep: T -> bool)
    ensures Filter(a + b, keep) == Filter(a, keep) + Filter(b, keep)
    decreases |b|
  {
    if b == [] {
      assert a + b == a;
    } else {
      var b' := b[..|b| - 1];
      FilterAppend(a, b', keep);
      var ab, x := a + b, b[|b| - 1];
      var tail := if keep(x) then [x] else [];
      assert ab[..|ab| - 1] == a + b' && ab[|ab| - 1] == x;
      assert Filter(ab, keep) == Filter(a + b', keep) + tail;
      assert Filter(b, keep) == Filter(b', keep) + tail;
    }
  }

  /** The filter leaves an order-preserving subsequence of its input. */
  lemma {:induction false} FilterIsSubsequence<T>(s: seq<T>, keep: T -> bool)
    ensures IsSubsequence(Filter(s, keep), s)
    decreases |s|
  {
    if s != [] {
      var s' := s[..|s| - 1];
      FilterIsSubsequence(s', keep);
      if keep(s[|s| - 1]) {
        SubsequenceAppend(Filter(s', keep), s', [s[|s| - 1]]);
        assert s' + [s[|s| - 1]] == s;
      } else {
        SubsequenceOfLonger(Filter(s', keep), s', [s[|s| - 1]]);
        assert s' + [s[|s| - 1]] == s;
      }
    }
  }

  /** Filtering a sequence whose entries all pass changes nothing, so a second
      filter with the same criterion is the identity. */
  lemma {:induction false} FilterKeepsAll<T>(s: seq<T>, keep: T -> bool)
    requires forall i :: 0 <= i < |s| ==> keep(s[i])
    ensures Filter(s, keep) == s
    decreases |s|
  {
    if s != [] {
      FilterKeepsAll(s[..|s| - 1], keep);
    }
  }

  lemma FilterIdempotent<T>(s: seq<T>, keep: T -> bool)
    ensures Filter(Filter(s, keep), keep) == Filter(s, keep)
  {
    FilterMembers(s, keep);
    FilterKeepsAll(Filter(s, keep), keep);
  }

  /** Removing entry i from a list whose first i + 1 entries are those of s,
      and moving the boundary of the untouched part down by one or two. */
  lemma SliceSplit<T>(s: seq<T>, i: nat, tail: seq<T>, r: seq<T>)
    requires i < |s| && r == s[..i + 1] + tail
    ensures i < |r| && r[i] == s[i]
    ensures r == s[..i] + ([s[i]] + tail)
    ensures i == 0 ==> r[..i] + r[i + 1..] == tail
    ensures 0 < i ==> r[..i] + r[i + 1..] == s[..i - 1] + ([s[i - 1]] + tail)
  {
    assert s[..i + 1] == s[..i] + [s[i]];
    if 0 < i {
      assert s[..i] == s[..i - 1] + [s[i - 1]];
      assert r[..i] == s[..i];
      assert r[i + 1..] == tail;
    }
  }

  /** List.IndexOf: the position of the first entry equal to x. */
  function IndexOf<T(==)>(s: seq<T>, x: T): (k: nat)
    requires x in s
    ensures k < |s| && s[k] == x
    ensures x !in s[..k]
  {
    if s[0] == x then 0 else 1 + IndexOf(s[1..], x)
  }

  /** List.Remove: drop the first entry equal to x, if there is one. */
  function RemoveFirst<T(==)>(s: seq<T>, x: T): (r: seq<T>)
    ensures x !in s ==> r == s
    ensures x in s ==> |r| == |s| - 1
  {
    if x in s then
      var k := IndexOf(s, x);
      s[..k] + s[k + 1..]
    else s
  }

  /** Remove takes away exactly one copy of x when there is one. */
  lemma RemoveFirstOneCopy<T>(s: seq<T>, x: T)
    ensures multiset(RemoveFirst(s, x)) == multiset(s) - multiset{x}
  {
    if x in s {
      var k := IndexOf(s, x);
      var pre, post := s[..k], s[k + 1..];
      assert s == pre + [x] + post;
      assert multiset(s) == multiset(pre) + multiset{x} + multiset(post);
      assert RemoveFirst(s, x) == pre + post;
      assert multiset(pre + post) == multiset(pre) + multiset(post);
    } else {
      assert multiset(s)[x] == 0;
    }
  }

  /** Appending x does not move its first occurrence, if there is one. */
  lemma IndexOfAfterAppend<T>(s: seq<T>, x: T)
    ensures IndexOf(s + [x], x) == if x in s then IndexOf(s, x) else |s|
  {
    var t := s + [x];
    var k := IndexOf(t, x);
    assert forall i :: 0 <= i < |s| ==> t[i] == s[i];
    assert forall i :: 0 <= i < k ==> t[i] != x by {
      forall i | 0 <= i < k ensures t[i] != x { assert t[..k][i] == t[i]; }
    }
    if x in s {
      var k' := IndexOf(s, x);
      assert forall i :: 0 <= i < k' ==> s[i] != x by {
        forall i | 0 <= i < k' ensures s[i] != x { assert s[..k'][i] == s[i]; }
      }
    } else {
      assert forall i :: 0 <= i < |s| ==> s[i] != x;
    }
  }

  /** Removing an entry just appended: when it was not there before, the
      list is back as it was; otherwise the earlier copy goes and the new one
      stays at the end. */
  lemma RemoveFirstAfterAppend<T>(s: seq<T>, x: T)
    ensures x !in s ==> RemoveFirst(s + [x], x) == s
    ensures x in s ==> RemoveFirst(s + [x], x) == RemoveFirst(s, x) + [x]
  {
    var t := s + [x];
    IndexOfAfterAppend(s, x);
    var k := IndexOf(t, x);
    if x !in s {
      assert t[..k] == s && t[k + 1..] == [];
    } else {
      assert t[..k] == s[..k] && t[k + 1..] == s[k + 1..] + [x];
    }
  }

  /** Remove keeps every other entry in its place relative to the rest. */
  lemma RemoveFirstIsSubsequence<T>(s: seq<T>, x: T)
    ensures IsSubsequence(RemoveFirst(s, x), s)
  {
    if x in s {
      var k := IndexOf(s, x);
      var pre, post := s[..k], s[k + 1..];
      assert s == pre + [x] + post;
      SubsequenceOfSelf(pre);
      SubsequenceOfLonger(pre, pre, [x]);
      SubsequenceAppend(pre, pre + [x], post);
    } else {
      SubsequenceOfSelf(s);
    }
  }
}
